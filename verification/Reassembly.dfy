/**
 * The bench page's channel (src-tauri/src/bench_harness.js, Channel): messages arrive in
 * any order under their index and are handed on in index order.
 */
module Reassembly {
  /** An arrival carries a message, or only says that the channel ends. */
  datatype Raw<T> = Message(index: nat, message: T) | End(index: nat)

  /** Exactly the messages before `|delivered|` are delivered, once each and in order. */
  ghost predicate InOrder<T>(delivered: seq<T>, arrived: map<nat, T>) {
    forall i :: 0 <= i < |delivered| ==> i in arrived && delivered[i] == arrived[i]
  }

  /** What waits is what arrived from `first` on. */
  ghost predicate Waits<T>(pending: map<nat, T>, first: nat, arrived: map<nat, T>) {
    pending == map i | i in arrived && i >= first :: arrived[i]
  }

  lemma DeliverNext<T>(pending: map<nat, T>, delivered: seq<T>, arrived: map<nat, T>)
    requires InOrder(delivered, arrived) && Waits(pending, |delivered|, arrived) && |delivered| in pending
    ensures InOrder(delivered + [pending[|delivered|]], arrived)
    ensures Waits(pending - {|delivered|}, |delivered| + 1, arrived)
    ensures |pending - {|delivered|}| < |pending|
  {
    var n := |delivered|;
    assert (pending - {n}).Keys == pending.Keys - {n};
  }

  lemma Arrives<T>(pending: map<nat, T>, delivered: seq<T>, arrived: map<nat, T>, index: nat, message: T)
    requires InOrder(delivered, arrived) && Waits(pending, |delivered|, arrived)
    requires |delivered| !in arrived && index !in arrived
    ensures var after := arrived[index := message]; var n := |delivered|;
      && index >= n
      && InOrder(delivered, after)
      && (index == n ==> InOrder(delivered + [message], after) && Waits(pending, n + 1, after))
      && (index > n ==> Waits(pending[index := message], n, after))
  {
    var after := arrived[index := message];
    assert forall i :: 0 <= i < |delivered| ==> delivered[i] == arrived[i];
    if index == |delivered| {
      assert pending == map i | i in after && i >= |delivered| + 1 :: after[i];
    } else {
      assert pending[index := message] == map i | i in after && i >= |delivered| :: after[i];
    }
  }

  class Channel<T> {
    var next: nat
    /** `_pending`: a sparse array, held slots only. */
    var pending: map<nat, T>
    /** What `onmessage` was called with, in order. */
    var delivered: seq<T>

    /** For the messages that `arrived`: `next` is the least index among none of them. */
    ghost predicate Holds(arrived: map<nat, T>)
      reads this
    {
      && next == |delivered| && next !in arrived
      && InOrder(delivered, arrived)
      && Waits(pending, next, arrived)
    }

    constructor ()
      ensures Holds(map[]) && delivered == []
    {
      next, pending, delivered := 0, map[], [];
    }

    /** The callback. Each index arrives with a message at most once. */
    method Receive(raw: Raw<T>, ghost arrived: map<nat, T>)
      requires Holds(arrived)
      requires raw.Message? ==> raw.index !in arrived
      modifies this
      ensures raw.End? ==> Holds(arrived) && delivered == old(delivered)
      ensures raw.Message? ==> Holds(arrived[raw.index := raw.message])
      ensures old(delivered) <= delivered
    {
      match raw {
        case End(_) => return;
        case Message(index, message) =>
          ghost var after := arrived[index := message];
          Arrives(pending, delivered, arrived, index, message);
          if index == next {
            delivered := delivered + [message];
            next := next + 1;
            while next in pending
              invariant next == |delivered| && InOrder(delivered, after) && Waits(pending, next, after)
              invariant old(delivered) <= delivered
              decreases |pending|
            {
              DeliverNext(pending, delivered, after);
              delivered := delivered + [pending[next]];
              pending := pending - {next};
              next := next + 1;
            }
          } else {
            pending := pending[index := message];
          }
      }
    }
  }

  ghost function From<T>(arrived: map<nat, T>, n: nat): set<nat> {
    set i | i in arrived && i >= n
  }

  /** The messages from `n` on, before the first gap. */
  ghost function Ready<T>(arrived: map<nat, T>, n: nat): (r: seq<T>)
    decreases |From(arrived, n)|
  {
    if n !in arrived then []
    else
      OneFewer(arrived, n);
      [arrived[n]] + Ready(arrived, n + 1)
  }

  lemma OneFewer<T>(arrived: map<nat, T>, n: nat)
    requires n in arrived
    ensures |From(arrived, n + 1)| < |From(arrived, n)|
  {
    assert From(arrived, n + 1) == From(arrived, n) - {n};
  }

  lemma {:induction false} ReadyFrom<T>(arrived: map<nat, T>, n: nat, delivered: seq<T>)
    requires n <= |delivered| && |delivered| !in arrived && InOrder(delivered, arrived)
    ensures Ready(arrived, n) == delivered[n..]
    decreases |delivered| - n
  {
    if n < |delivered| {
      ReadyFrom(arrived, n + 1, delivered);
      assert delivered[n..] == [delivered[n]] + delivered[n + 1..];
    }
  }

  /**
   * So what is delivered depends only on which messages have arrived, never on the order
   * they came in: it is all of them up to the first gap.
   */
  lemma OrderOfArrivalIsIrrelevant<T>(arrived: map<nat, T>, delivered: seq<T>)
    requires |delivered| !in arrived && InOrder(delivered, arrived)
    ensures delivered == Ready(arrived, 0)
  {
    ReadyFrom(arrived, 0, delivered);
    assert delivered[0..] == delivered;
  }
}
