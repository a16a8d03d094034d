/** Sequences from which an element is taken, and queues. */
module Sequences {
  function Without<T>(q: seq<T>, k: nat): seq<T> {
    if k < |q| then q[..k] + q[k + 1..] else q
  }

  /** A queue that takes in `added` and gives out `taken` keeps the order of all that went
      through it. */
  lemma QueueKeepsOrder<T>(gone: seq<T>, queue: seq<T>, start: seq<T>, came: seq<T>,
    taken: seq<T>, rest: seq<T>, added: seq<T>)
    requires gone + queue == start + came && queue + added == taken + rest
    ensures (gone + taken) + rest == start + (came + added)
  {
    assert (gone + taken) + rest == gone + (taken + rest);
    assert gone + (queue + added) == (gone + queue) + added;
    assert (start + came) + added == start + (came + added);
  }
}
