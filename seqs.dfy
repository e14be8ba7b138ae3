/**
 * Generic facts about sequences that the proofs of the pipeline's modules
 * rely on. Stating them once, over any element type, keeps those proofs from
 * re-deriving them on item-typed sequences, which is far costlier for the solver.
 */
module Seqs {
  import opened Basics

  lemma SplitLast<T>(s: seq<T>)
    requires s != []
    ensures s[..|s| - 1] + [s[|s| - 1]] == s
  {
  }

  /** The last element of `a + b`, for a non-empty `b`, is `b`'s, and what precedes it is `a` followed by the rest of `b`. */
  lemma AppendDropLast<T>(a: seq<T>, b: seq<T>)
    requires b != []
    ensures (a + b)[..|a + b| - 1] == a + b[..|b| - 1]
    ensures (a + b)[|a + b| - 1] == b[|b| - 1]
  {
  }

  lemma ConcatAssoc<T>(x: seq<T>, y: seq<T>, z: seq<T>)
    ensures x + y + z == x + (y + z)
  {
  }

  lemma TakeOneMore<T>(s: seq<T>, i: nat)
    requires i < |s|
    ensures s[..i + 1] == s[..i] + [s[i]]
  {
  }

  lemma SecondAt<T>(first: seq<T>, second: seq<T>, j: nat)
    requires j < |second|
    ensures (first + second)[|first| + j] == second[j]
  {
  }

  /** Element 2 + i of `[header] + ([heading] + body + tail) + after` is `body[i]`. */
  lemma FirstSectionLine<T>(header: T, heading: T, body: seq<T>, tail: seq<T>, after: seq<T>, i: nat)
    requires i < |body|
    ensures 2 + i < |[header] + ([heading] + body + tail) + after|
    ensures ([header] + ([heading] + body + tail) + after)[2 + i] == body[i]
  {
  }

  /** A sequence that starts with `x` and continues element by element as `t` is `[x] + t`. */
  lemma Cons<T>(s: seq<T>, x: T, t: seq<T>)
    requires |s| == |t| + 1 && s[0] == x
    requires forall i | 0 <= i < |t| :: s[i + 1] == t[i]
    ensures s == [x] + t
  {
    assert forall i | 0 < i < |s| :: s[i] == t[i - 1];
  }

  /**
   * Applies `f` to each element in order, keeping the present values and
   * stopping at the first error.
   */
  function Collect<A, B, E>(f: A -> Result<Option<B>, E>, xs: seq<A>): (r: Result<seq<B>, E>)
    ensures r.Ok? ==> |r.value| <= |xs|
  {
    if xs == [] then Ok([])
    else
      var init := Collect(f, xs[..|xs| - 1]);
      if init.Err? then init
      else
        var last := f(xs[|xs| - 1]);
        if last.Err? then Err(last.error)
        else if last.value.None? then init
        else Ok(init.value + [last.value.value])
  }

  /** An element whose result is an error makes the whole collection an error. */
  lemma {:induction false} CollectRaisesAt<A, B, E>(f: A -> Result<Option<B>, E>, xs: seq<A>, i: nat)
    requires i < |xs| && f(xs[i]).Err?
    ensures Collect(f, xs).Err?
  {
    var init := xs[..|xs| - 1];
    if i < |init| {
      assert init[i] == xs[i];
      CollectRaisesAt(f, init, i);
    }
  }

  /** A collection that is an error carries the error of its first failing element. */
  lemma {:induction false} CollectFirstError<A, B, E>(f: A -> Result<Option<B>, E>, xs: seq<A>)
    requires Collect(f, xs).Err?
    ensures exists i | 0 <= i < |xs| ::
      && f(xs[i]).Err?
      && (forall j | 0 <= j < i :: f(xs[j]).Ok?)
      && f(xs[i]).error == Collect(f, xs).error
  {
    var n := |xs| - 1;
    var init := xs[..n];
    if Collect(f, init).Err? {
      CollectFirstError(f, init);
      var i :| 0 <= i < n && f(init[i]).Err? && (forall j | 0 <= j < i :: f(init[j]).Ok?) && f(init[i]).error == Collect(f, init).error;
      assert forall j | 0 <= j <= i :: init[j] == xs[j];
    } else {
      forall j | 0 <= j < n
        ensures f(xs[j]).Ok?
      {
        assert init[j] == xs[j];
        if f(init[j]).Err? {
          CollectRaisesAt(f, init, j);
        }
      }
    }
  }
}
