/** A bounded deque: its length limit is fixed when it is created, and appending to a full one
    drops its oldest element. */
module BoundedDeque {

  datatype Deque<T> = Deque(items: seq<T>, maxlen: nat)

  /** The last n elements, or all of them when there are fewer. */
  function LastN<T>(s: seq<T>, n: nat): (r: seq<T>)
    ensures |r| == if |s| <= n then |s| else n
  {
    if |s| <= n then s else LastN(s[1..], n)
  }

  lemma {:induction false} LastNIsSuffix<T>(s: seq<T>, n: nat)
    ensures LastN(s, n) == if |s| <= n then s else s[|s| - n..]
  {
    if |s| > n {
      LastNIsSuffix(s[1..], n);
    }
  }

  function Appended<T>(d: Deque<T>, x: T): Deque<T> {
    Deque(LastN(d.items + [x], d.maxlen), d.maxlen)
  }

  /** A bounded deque fed a whole history holds the tail of that history. */
  lemma {:induction false} AppendedKeepsTail<T>(history: seq<T>, x: T, maxlen: nat)
    ensures Appended(Deque(LastN(history, maxlen), maxlen), x) == Deque(LastN(history + [x], maxlen), maxlen)
  {
    LastNIsSuffix(history, maxlen);
    LastNIsSuffix(history + [x], maxlen);
    LastNIsSuffix(LastN(history, maxlen) + [x], maxlen);
  }
}
