/** Regrouping of concatenations, and what a loop has done so far put before what is left. */
module Sequences {
  import opened Wrappers

  lemma Regroup<T>(a: seq<T>, b: seq<T>, c: seq<T>)
    ensures a + b + c == a + (b + c)
    ensures [] + c == c && a + [] == a
  {
  }

  lemma Regroup4<T>(a: seq<T>, b: seq<T>, c: seq<T>, d: seq<T>)
    ensures a + b + c + d == a + (b + (c + d))
  {
  }

  lemma Cut<T>(s: seq<T>, n: nat, m: nat)
    requires n + m <= |s|
    ensures s == s[..n] + (s[n..][..m] + s[n..][m..]) && s[n..][m..] == s[n + m..]
  {
  }

  lemma SplitLast<T>(xs: seq<T>)
    requires xs != []
    ensures xs == xs[..|xs| - 1] + [xs[|xs| - 1]]
  {
  }

  /** The items done, then the rest, which may fail as a whole. */
  function After<T>(done: seq<T>, rest: Option<seq<T>>): Option<seq<T>> {
    if rest.None? then None else Some(done + rest.value)
  }

  lemma Prepended<T>(none: seq<T>, rest: Option<seq<T>>)
    requires none == []
    ensures After(none, rest) == rest
  {
    if rest.Some? {
      assert [] + rest.value == rest.value;
    }
  }

  lemma AfterOne<T>(done: seq<T>, x: T, rest: Option<seq<T>>)
    ensures After(done + [x], rest) == After(done, if rest.None? then None else Some([x] + rest.value))
  {
    if rest.Some? {
      assert done + [x] + rest.value == done + ([x] + rest.value);
    }
  }
}
