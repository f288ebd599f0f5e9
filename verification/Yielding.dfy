/**
 Go's push iterators: a producer calls `yield` for one value after another and must stop as soon
 as it is told that no more are wanted.  A consumer is a function of all it has been given.
 */
module Yielding {
  /** Each of the first `n` values was answered with a request for more. */
  ghost predicate Accepted<T>(consumer: seq<T> -> bool, out: seq<T>, n: int) {
    n <= |out| && forall i | 0 < i <= n :: consumer(out[..i])
  }

  /** The consumer has been given `all` up to the first value it refused, and nothing after. */
  ghost predicate Delivered<T>(consumer: seq<T> -> bool, out: seq<T>, all: seq<T>) {
    && out <= all
    && Accepted(consumer, out, |out| - 1)
    && (out == all || (out != [] && !consumer(out)))
  }

  /** So what it is given is determined. */
  lemma DeliveredIsDetermined<T>(consumer: seq<T> -> bool, a: seq<T>, b: seq<T>, all: seq<T>)
    requires Delivered(consumer, a, all) && Delivered(consumer, b, all)
    ensures a == b
  {
    assert a == all[..|a|] && b == all[..|b|];
    assert |a| < |b| ==> b[..|a|] == a;
    assert |b| < |a| ==> a[..|b|] == b;
  }

  /** One more value, and the answer to it. */
  lemma AcceptedOneMore<T>(consumer: seq<T> -> bool, out: seq<T>, x: T)
    requires Accepted(consumer, out, |out|)
    ensures Accepted(consumer, out + [x], |out|)
    ensures consumer(out + [x]) ==> Accepted(consumer, out + [x], |out| + 1)
  {
    assert forall i | 0 < i <= |out| :: (out + [x])[..i] == out[..i];
    assert (out + [x])[..|out| + 1] == out + [x];
  }
}
