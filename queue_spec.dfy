/**
 * The queue of src/queue.rs seen from outside: a sequence of values, front first.
 *
 * `Dequeued` is what one `dequeue` does to that sequence as the code is written,
 * `Drain` is the list of values that the draining loop of `Drop::drop` receives.
 * `DequeuedIntended` and `DrainIntended` are the first-in-first-out behaviour the
 * code evidently meant; the lemmas at the end relate the two.
 */
module QueueSpec {

  datatype Option<T> = None | Some(value: T)

  /** What `peek` returns, and what `dequeue` returns, for a queue holding `s`. */
  function Front<T>(s: seq<T>): Option<T>
  {
    if s == [] then None else Some(s[0])
  }

  /**
   * The contents after one `dequeue` as src/queue.rs writes it: an empty queue
   * stays empty, a one-element queue becomes empty, a queue of three or more
   * loses its front, and a queue of exactly two keeps its FRONT value twice over
   * (the new single value is the cached head value, not the second element).
   */
  function Dequeued<T>(s: seq<T>): (t: seq<T>)
    ensures |t| == if s == [] then 0 else |s| - 1
  {
    if |s| <= 1 then []
    else if |s| == 2 then [s[0]]
    else s[1..]
  }

  /** The values handed out by dequeueing until `None`, in order. */
  function Drain<T>(s: seq<T>): (out: seq<T>)
    ensures |out| == |s|
    decreases |s|
  {
    match Front(s)
    case None => []
    case Some(x) => [x] + Drain(Dequeued(s))
  }

  /** The evidently intended `dequeue`: drop the front, whatever the length. */
  function DequeuedIntended<T>(s: seq<T>): (t: seq<T>)
    ensures |t| == if s == [] then 0 else |s| - 1
  {
    if s == [] then [] else s[1..]
  }

  /** Dequeueing until `None` with the intended `dequeue`. */
  function DrainIntended<T>(s: seq<T>): (out: seq<T>)
    ensures |out| == |s|
    decreases |s|
  {
    match Front(s)
    case None => []
    case Some(x) => [x] + DrainIntended(DequeuedIntended(s))
  }

  /** One step of draining: the front comes out, then the rest of `Dequeued(s)`. */
  lemma DrainStep<T>(handed: seq<T>, s: seq<T>)
    requires s != []
    ensures (handed + [s[0]]) + Drain(Dequeued(s)) == handed + Drain(s)
  {
    assert Drain(s) == [s[0]] + Drain(Dequeued(s));
  }

  /**
   * Enqueueing `v` and then dequeueing from a non-empty queue: from one element
   * the queue keeps its old front instead of `v`; otherwise the front goes and
   * `v` stays at the back.
   */
  lemma DequeueAfterEnqueue<T>(s: seq<T>, v: T)
    requires s != []
    ensures Dequeued(s + [v]) == if |s| == 1 then s else s[1..] + [v]
  {
    if |s| == 1 {
      assert (s + [v])[0] == s[0];
      assert [s[0]] == s;
    } else {
      assert (s + [v])[1..] == s[1..] + [v];
    }
  }

  /** One intended `dequeue` moves exactly the front from the contents to the values handed out. */
  lemma DequeuedIntendedStep<T>(handed: seq<T>, s: seq<T>)
    requires s != []
    ensures (handed + [s[0]]) + DequeuedIntended(s) == handed + s
  {
    assert [s[0]] + s[1..] == s;
  }

  /** The two `dequeue`s agree exactly when the queue does not hold two different values. */
  lemma DequeuedDiffersOnlyAtTwo<T>(s: seq<T>)
    ensures Dequeued(s) == DequeuedIntended(s) <==> (|s| != 2 || s[0] == s[1])
  {
    if |s| == 2 && Dequeued(s) == DequeuedIntended(s) {
      assert [s[0]] == s[1..];
      assert s[0] == [s[0]][0] == s[1..][0] == s[1];
    }
    if |s| == 2 && s[0] == s[1] {
      assert [s[0]] == s[1..];
    }
  }

  /**
   * Draining a queue of two or more elements as the code is written hands out
   * every element but the last in order, and then the second-to-last once more.
   */
  lemma {:induction false} DrainRepeatsSecondToLast<T>(s: seq<T>)
    requires |s| >= 2
    ensures Drain(s) == s[..|s| - 1] + [s[|s| - 2]]
    decreases |s|
  {
    if |s| == 2 {
      assert Dequeued(s) == [s[0]];
      assert Dequeued([s[0]]) == [];
      calc {
        Drain(s);
        [s[0]] + Drain([s[0]]);
        [s[0]] + ([s[0]] + Drain([]));
        [s[0], s[0]];
      }
      assert s[..1] + [s[0]] == [s[0], s[0]];
    } else {
      var t := s[1..];
      assert Dequeued(s) == t;
      DrainRepeatsSecondToLast(t);
      assert Drain(s) == [s[0]] + (t[..|t| - 1] + [t[|t| - 2]]);
      assert t[..|t| - 1] == s[1..|s| - 1];
      assert t[|t| - 2] == s[|s| - 2];
      assert [s[0]] + s[1..|s| - 1] == s[..|s| - 1];
    }
  }

  /** Draining loses nothing for queues of fewer than two elements. */
  lemma DrainShortIsFifo<T>(s: seq<T>)
    requires |s| < 2
    ensures Drain(s) == s
  {
    if |s| == 1 {
      assert Dequeued(s) == [];
      assert Drain(s) == [s[0]] + Drain([]);
    }
  }

  /** The queue of src/main.rs, drained by `Drop::drop` at the end of `main`: 128 comes out twice, 256 never. */
  lemma DrainDemoQueue()
    ensures Drain([8, 16, 32, 64, 128, 256]) == [8, 16, 32, 64, 128, 128]
  {
    var s := [8, 16, 32, 64, 128, 256];
    DrainRepeatsSecondToLast(s);
    assert s[..5] == [8, 16, 32, 64, 128];
  }

  /** A two-element queue of distinct values drains to its front twice: the second value is lost. */
  lemma TwoToOneLosesSecond<T>(a: T, b: T)
    requires a != b
    ensures Drain([a, b]) == [a, a]
    ensures Drain([a, b]) != [a, b]
  {
    DrainRepeatsSecondToLast([a, b]);
    assert [a, b][..1] == [a];
    assert Drain([a, b])[1] == a;
  }

  /** The intended `dequeue` gives first-in-first-out order: draining returns the contents unchanged. */
  lemma {:induction false} DrainIntendedIsFifo<T>(s: seq<T>)
    ensures DrainIntended(s) == s
    decreases |s|
  {
    if s != [] {
      DrainIntendedIsFifo(s[1..]);
      assert DrainIntended(s) == [s[0]] + s[1..];
    }
  }
}
