/**
  Chains of steps in a directed graph: what they lead to, and when they all come
  to an end.
 */
module Chains {

  /** A sequence of nodes, each one step from the one before it. */
  ghost predicate IsChain<T(!new)>(step: (T, T) -> bool, path: seq<T>) {
    |path| > 0 && forall i :: 0 <= i < |path| - 1 ==> step(path[i], path[i + 1])
  }

  ghost predicate Leads<T(!new)>(step: (T, T) -> bool, a: T, b: T) {
    exists path :: IsChain(step, path) && path[0] == a && path[|path| - 1] == b
  }

  /** Two positions of the path hold the same node. */
  ghost predicate Repeating<T(!new)>(path: seq<T>) { exists i, j :: 0 <= i < j < |path| && path[i] == path[j] }

  /** No chain from `n` comes back to a node. */
  ghost predicate Ends<T(!new)>(step: (T, T) -> bool, n: T) {
    forall path :: IsChain(step, path) && path[0] == n ==> !Repeating(path)
  }

  // ---------- chains step by step ----------

  lemma LeadsSelf<T(!new)>(step: (T, T) -> bool, n: T)
    ensures Leads(step, n, n)
  {
    assert IsChain(step, [n]) && [n][0] == n;
  }

  lemma LeadsOn<T(!new)>(step: (T, T) -> bool, n: T, a: T, k: T)
    requires Leads(step, n, a) && step(a, k)
    ensures Leads(step, n, k)
  {
    var path :| IsChain(step, path) && path[0] == n && path[|path| - 1] == a;
    var longer := path + [k];
    assert IsChain(step, longer) && longer[0] == n && longer[|longer| - 1] == k;
  }

  lemma LeadsFrom<T(!new)>(step: (T, T) -> bool, n: T, k: T, a: T)
    requires step(n, k) && Leads(step, k, a)
    ensures Leads(step, n, a)
  {
    var path :| IsChain(step, path) && path[0] == k && path[|path| - 1] == a;
    assert IsChain(step, [n] + path) && ([n] + path)[|path|] == a;
  }

  lemma LeadsFirst<T(!new)>(step: (T, T) -> bool, n: T, a: T) returns (k: T)
    requires Leads(step, n, a) && a != n
    ensures step(n, k) && Leads(step, k, a)
  {
    var path :| IsChain(step, path) && path[0] == n && path[|path| - 1] == a;
    k := path[1];
    assert IsChain(step, path[1..]) && path[1..][0] == k && path[1..][|path| - 2] == a;
  }

  // ---------- when chains end ----------

  /** Chains end from wherever a chain that ends leads to. */
  lemma EndsOn<T(!new)>(step: (T, T) -> bool, n: T, k: T)
    requires Ends(step, n) && step(n, k)
    ensures Ends(step, k) && !Leads(step, k, n)
  {
    forall path | IsChain(step, path) && path[0] == k
      ensures !Repeating(path)
    {
      var longer := [n] + path;
      assert IsChain(step, longer) && longer[0] == n;
      assert forall i :: 0 <= i < |path| ==> path[i] == longer[i + 1];
    }
    if Leads(step, k, n) {
      Circle(step, n, k);
    }
  }

  lemma Circle<T(!new)>(step: (T, T) -> bool, n: T, k: T)
    requires step(n, k) && Leads(step, k, n)
    ensures !Ends(step, n)
  {
    var path :| IsChain(step, path) && path[0] == k && path[|path| - 1] == n;
    var circle := [n] + path;
    assert IsChain(step, circle) && circle[0] == n && circle[|path|] == n;
  }

  /** A chain that repeats a node can be had from its second node on, too. */
  lemma RepeatsLater<T(!new)>(step: (T, T) -> bool, path: seq<T>) returns (rest: seq<T>)
    requires IsChain(step, path) && Repeating(path)
    ensures |path| > 1 && step(path[0], path[1]) && IsChain(step, rest) && rest[0] == path[1] && Repeating(rest)
  {
    var i, j :| 0 <= i < j < |path| && path[i] == path[j];
    if i > 0 {
      rest := path[1..];
      assert rest[i - 1] == rest[j - 1];
    } else {
      rest := path[1..j + 1] + [path[1]];
      assert rest[0] == rest[j];
    }
  }

  /** Chains end if they do after every first step. */
  lemma EndsIfAllEnd<T(!new)>(step: (T, T) -> bool, n: T)
    requires forall k :: step(n, k) ==> Ends(step, k)
    ensures Ends(step, n)
  {
    forall path | IsChain(step, path) && path[0] == n
      ensures !Repeating(path)
    {
      if Repeating(path) {
        var rest := RepeatsLater(step, path);
      }
    }
  }

  /** Steps stay inside `u`. */
  ghost predicate Inside<T(!new)>(step: (T, T) -> bool, u: set<T>) {
    forall a, k :: a in u && step(a, k) ==> k in u
  }

  /** What `n` leads to, inside `u`. */
  ghost function Reach<T(!new)>(step: (T, T) -> bool, u: set<T>, n: T): set<T> {
    set a | a in u && Leads(step, n, a)
  }

  /** Where chains end, every step leaves fewer nodes to reach. */
  lemma ReachShrinks<T(!new)>(step: (T, T) -> bool, u: set<T>, n: T, k: T)
    requires n in u && Ends(step, n) && step(n, k)
    ensures Reach(step, u, k) < Reach(step, u, n)
  {
    EndsOn(step, n, k);
    LeadsSelf(step, n);
    forall a | a in Reach(step, u, k)
      ensures a in Reach(step, u, n)
    {
      LeadsFrom(step, n, k, a);
    }
    assert n in Reach(step, u, n) && n !in Reach(step, u, k);
  }

  // ---------- ranks ----------

  /** Every step from a node that `n` leads to goes to a smaller rank. */
  ghost predicate Ranks<T(!new)>(step: (T, T) -> bool, rank: T -> nat, n: T) {
    forall a, k :: Leads(step, n, a) && step(a, k) ==> rank(k) < rank(a)
  }

  lemma {:induction false} RankDescends<T(!new)>(step: (T, T) -> bool, rank: T -> nat, path: seq<T>, i: nat, j: nat)
    requires IsChain(step, path) && Ranks(step, rank, path[0]) && i <= j < |path|
    ensures rank(path[j]) + (j - i) <= rank(path[i])
  {
    if i < j {
      RankDescends(step, rank, path, i, j - 1);
      var prefix := path[..j];
      assert IsChain(step, prefix) && prefix[0] == path[0] && prefix[|prefix| - 1] == path[j - 1];
    }
  }

  lemma {:induction false} EndsAlong<T(!new)>(step: (T, T) -> bool, u: set<T>, path: seq<T>)
    requires Inside(step, u) && IsChain(step, path) && path[0] in u && Ends(step, path[0])
    ensures path[|path| - 1] in u && Ends(step, path[|path| - 1])
  {
    var n := |path| - 1;
    if n > 0 {
      EndsAlong(step, u, path[..n]);
      EndsOn(step, path[n - 1], path[n]);
    }
  }

  lemma SmallerSet<T>(a: set<T>, b: set<T>)
    requires a < b
    ensures |a| < |b|
  {
    assert b == a + (b - a);
  }

  /** The number of nodes to reach is a rank wherever chains end. */
  lemma ReachRanks<T(!new)>(step: (T, T) -> bool, u: set<T>, n: T, rank: T -> nat)
    requires Inside(step, u) && n in u && Ends(step, n)
    requires forall a :: rank(a) == |Reach(step, u, a)|
    ensures Ranks(step, rank, n)
  {
    forall a, k | Leads(step, n, a) && step(a, k)
      ensures rank(k) < rank(a)
    {
      var path :| IsChain(step, path) && path[0] == n && path[|path| - 1] == a;
      EndsAlong(step, u, path);
      ReachShrinks(step, u, a, k);
      SmallerSet(Reach(step, u, k), Reach(step, u, a));
    }
  }

  /** In a finite graph the chains from `n` end if and only if they descend in some rank. */
  lemma EndsIffRanked<T(!new)>(step: (T, T) -> bool, u: set<T>, n: T)
    requires Inside(step, u) && n in u
    ensures Ends(step, n) <==> exists rank: T -> nat :: Ranks(step, rank, n)
  {
    if Ends(step, n) {
      var rank: T -> nat := a => |Reach(step, u, a)|;
      ReachRanks(step, u, n, rank);
    }
    if exists rank: T -> nat :: Ranks(step, rank, n) {
      var rank: T -> nat :| Ranks(step, rank, n);
      forall path | IsChain(step, path) && path[0] == n
        ensures !Repeating(path)
      {
        forall i, j | 0 <= i < j < |path|
          ensures path[i] != path[j]
        {
          RankDescends(step, rank, path, i, j);
        }
      }
    }
  }

  // ---------- chains that do not end ----------

  /** Going round a circle `c` times. */
  lemma {:induction false} Around<T(!new)>(step: (T, T) -> bool, path: seq<T>, i: nat, j: nat, c: nat) returns (longer: seq<T>)
    requires IsChain(step, path) && i < j < |path| && path[i] == path[j]
    ensures IsChain(step, longer) && longer[0] == path[0] && longer[|longer| - 1] == path[i] && |longer| > c
    decreases c
  {
    if c == 0 {
      longer := path[..i + 1];
    } else {
      var before := Around(step, path, i, j, c - 1);
      var circle := path[i + 1..j + 1];
      longer := before + circle;
      var b := |before|;
      forall t | 0 <= t < |longer| - 1
        ensures step(longer[t], longer[t + 1])
      {
        if t >= b - 1 {
          assert longer[t] == path[i + 1 + t - b] && longer[t + 1] == path[i + 2 + t - b];
        }
      }
    }
  }

  /** A graph in which the chains from `n` do not end has chains of every length from there. */
  lemma EndlessChains<T(!new)>(step: (T, T) -> bool, n: T, len: nat) returns (path: seq<T>)
    requires !Ends(step, n) && len > 0
    ensures IsChain(step, path) && path[0] == n && |path| == len
  {
    var some :| IsChain(step, some) && some[0] == n && Repeating(some);
    var i, j :| 0 <= i < j < |some| && some[i] == some[j];
    var longer := Around(step, some, i, j, len);
    path := longer[..len];
  }
}
