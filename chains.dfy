/** The chain of command: the walk up the `manager_id` links from a user's manager
    (src/handler.py:153-158), specified as a relation between the stored users, the start of
    the walk and the list of ids it collects. */
module Chains {
  import opened Wrappers
  import opened Users

  /** One step of the walk: `(db.user.find_one({"_id": id}) or {}).get("manager_id")`. */
  function Next(users: map<Id, User>, id: Id): Option<Id> {
    if id in users then users[id].managerId else None
  }

  /** `c` starts at `start` and each id in it is followed by that user's manager. */
  ghost predicate Linked(users: map<Id, User>, start: Option<Id>, c: seq<Id>) {
    match start
    case None => c == []
    case Some(first) =>
      && |c| > 0 && c[0] == first
      && forall k :: 0 <= k < |c| - 1 ==> Next(users, c[k]) == Some(c[k + 1])
  }

  /** The walk stopped where the source's loop stops: the last id has no manager, or is unknown. */
  ghost predicate Complete(users: map<Id, User>, c: seq<Id>) {
    c != [] ==> Next(users, c[|c| - 1]).None?
  }

  /** `c` is the chain of command that the walk from `start` collects, nearest manager first. */
  ghost predicate IsChain(users: map<Id, User>, start: Option<Id>, c: seq<Id>) {
    Linked(users, start, c) && Complete(users, c)
  }

  /** The walk from `start` ends (it does not run into a cycle). */
  ghost predicate Terminates(users: map<Id, User>, start: Option<Id>) {
    exists c :: IsChain(users, start, c)
  }

  ghost predicate Distinct(c: seq<Id>) {
    forall a, b :: 0 <= a < b < |c| ==> c[a] != c[b]
  }

  /** The walk is deterministic: any linked list from `start` is a prefix of the chain. */
  lemma {:induction false} PrefixOfChain(users: map<Id, User>, start: Option<Id>, p: seq<Id>, c: seq<Id>, k: nat)
    requires Linked(users, start, p) && IsChain(users, start, c)
    requires k < |p|
    ensures k < |c| && p[k] == c[k]
  {
    if k > 0 {
      PrefixOfChain(users, start, p, c, k - 1);
      assert Next(users, p[k - 1]) == Some(p[k]);
    }
  }

  /** There is at most one chain of command from a given start. */
  lemma ChainUnique(users: map<Id, User>, start: Option<Id>, c1: seq<Id>, c2: seq<Id>)
    requires IsChain(users, start, c1) && IsChain(users, start, c2)
    ensures c1 == c2
  {
    if c1 != [] {
      PrefixOfChain(users, start, c1, c2, |c1| - 1);
    }
    if c2 != [] {
      PrefixOfChain(users, start, c2, c1, |c2| - 1);
    }
    forall k | 0 <= k < |c1| ensures c1[k] == c2[k] {
      PrefixOfChain(users, start, c1, c2, k);
    }
  }

  /** Once an id repeats, everything after it repeats with the same period. */
  lemma {:induction false} RepeatShifts(users: map<Id, User>, start: Option<Id>, c: seq<Id>, a: nat, b: nat, j: nat)
    requires Linked(users, start, c)
    requires a < b && b + j < |c|
    ensures c[a] == c[b] ==> c[a + j] == c[b + j]
  {
    if j > 0 {
      RepeatShifts(users, start, c, a, b, j - 1);
      assert Next(users, c[a + j - 1]) == Some(c[a + j]);
      assert Next(users, c[b + j - 1]) == Some(c[b + j]);
    }
  }

  /** A completed chain never visits a user twice. */
  lemma ChainDistinct(users: map<Id, User>, start: Option<Id>, c: seq<Id>)
    requires IsChain(users, start, c)
    ensures Distinct(c)
  {
    forall a, b | 0 <= a < b < |c| ensures c[a] != c[b] {
      var j := |c| - 1 - b;
      RepeatShifts(users, start, c, a, b, j);
      assert Next(users, c[a + j]) == Some(c[a + j + 1]);
    }
  }

  /** A list without repetitions drawn from a set is no longer than the set. */
  lemma {:induction false} DistinctBound(c: seq<Id>, s: set<Id>)
    requires Distinct(c)
    requires forall k :: 0 <= k < |c| ==> c[k] in s
    ensures |c| <= |s|
  {
    if c != [] {
      var x := c[|c| - 1];
      var c' := c[..|c| - 1];
      forall k | 0 <= k < |c'| ensures c'[k] in s - {x} {
        assert c'[k] == c[k];
      }
      DistinctBound(c', s - {x});
    }
  }

  /** A chain of command names every stored user at most once, plus possibly an unknown id
      at its end. */
  lemma ChainLength(users: map<Id, User>, start: Option<Id>, c: seq<Id>)
    requires IsChain(users, start, c)
    ensures |c| <= |users| + 1
  {
    if c != [] {
      ChainDistinct(users, start, c);
      var c' := c[..|c| - 1];
      forall k | 0 <= k < |c'| ensures c'[k] in users.Keys {
        assert Next(users, c[k]) == Some(c[k + 1]);
      }
      DistinctBound(c', users.Keys);
    }
  }

  /** A linked walk that can still go on is strictly shorter than the chain. */
  lemma LinkedShorter(users: map<Id, User>, start: Option<Id>, p: seq<Id>, c: seq<Id>)
    requires Linked(users, start, p) && !Complete(users, p)
    requires IsChain(users, start, c)
    ensures |p| < |c|
  {
    PrefixOfChain(users, start, p, c, |p| - 1);
    assert Next(users, c[|p| - 1]).Some?;
  }

  /** A linked walk that has collected more ids than there are users and can still go on
      has entered a cycle: the source's loop would never stop. */
  lemma ExhaustedWalkCycles(users: map<Id, User>, start: Option<Id>, p: seq<Id>)
    requires Linked(users, start, p) && !Complete(users, p)
    ensures Terminates(users, start) ==> |p| <= |users|
  {
    if Terminates(users, start) {
      var c :| IsChain(users, start, c);
      LinkedShorter(users, start, p, c);
      ChainLength(users, start, c);
    }
  }

  /** A manager without a manager of their own is the whole chain. */
  lemma TopManagerChain(users: map<Id, User>, m: Id)
    requires Next(users, m).None?
    ensures IsChain(users, Some(m), [m])
  {
  }

  /** Dropping the last id of a linked list leaves a linked list whose last id points to it. */
  lemma LinkedInit(users: map<Id, User>, start: Option<Id>, p: seq<Id>, x: Id)
    requires p != [] && Linked(users, start, p + [x])
    ensures Linked(users, start, p) && Next(users, p[|p| - 1]) == Some(x)
  {
    assert (p + [x])[|p|] == x && (p + [x])[|p| - 1] == p[|p| - 1];
    forall k | 0 <= k < |p| - 1 ensures Next(users, p[k]) == Some(p[k + 1]) {
      assert (p + [x])[k] == p[k] && (p + [x])[k + 1] == p[k + 1];
    }
  }

  /** What the walk collects once it also stops at the first id it has already collected:
      a linked list without repetitions that ends either where the source's loop ends or
      just before the walk would come back to an id in it. */
  ghost predicate CutChain(users: map<Id, User>, start: Option<Id>, c: seq<Id>) {
    && Linked(users, start, c)
    && Distinct(c)
    && (Complete(users, c) || Next(users, c[|c| - 1]).value in c)
  }

  /** Before the end of a terminating walk, the next id is a new one. */
  lemma NoRepeatBeforeEnd(users: map<Id, User>, start: Option<Id>, c: seq<Id>, ch: seq<Id>)
    requires Linked(users, start, c) && !Complete(users, c)
    requires IsChain(users, start, ch)
    ensures Next(users, c[|c| - 1]).value !in c
  {
    LinkedShorter(users, start, c, ch);
    ChainDistinct(users, start, ch);
    PrefixOfChain(users, start, c, ch, |c| - 1);
    assert Next(users, ch[|c| - 1]) == Some(ch[|c|]);
    forall j | 0 <= j < |c| ensures c[j] != ch[|c|] {
      PrefixOfChain(users, start, c, ch, j);
    }
  }

  /** Whenever the source's loop ends, the walk that also stops at a repeated id collects
      exactly the same chain of command. */
  lemma CutChainIsChain(users: map<Id, User>, start: Option<Id>, c: seq<Id>)
    requires CutChain(users, start, c)
    ensures Terminates(users, start) ==> IsChain(users, start, c)
  {
    if Terminates(users, start) && !Complete(users, c) {
      var ch :| IsChain(users, start, ch);
      NoRepeatBeforeEnd(users, start, c, ch);
    }
  }

  /** The walk from a user who is their own manager only ever visits that user. */
  lemma {:induction false} SelfManagedWalk(users: map<Id, User>, u: Id, c: seq<Id>, k: nat)
    requires Next(users, u) == Some(u)
    requires Linked(users, Some(u), c) && k < |c|
    ensures c[k] == u
  {
    if k > 0 {
      SelfManagedWalk(users, u, c, k - 1);
      assert Next(users, c[k - 1]) == Some(c[k]);
    }
  }

  /** The source's loop never ends on a user who is their own manager. */
  lemma SelfManagedNeverEnds(users: map<Id, User>, u: Id)
    requires Next(users, u) == Some(u)
    ensures !Terminates(users, Some(u))
  {
    forall c ensures !IsChain(users, Some(u), c) {
      if Linked(users, Some(u), c) {
        SelfManagedWalk(users, u, c, |c| - 1);
      }
    }
  }

  /** The walk that stops at a repeated id collects the self-managed user once. */
  lemma SelfManagedCutChain(users: map<Id, User>, u: Id, c: seq<Id>)
    requires Next(users, u) == Some(u)
    ensures CutChain(users, Some(u), c) <==> c == [u]
  {
    if CutChain(users, Some(u), c) && |c| > 1 {
      SelfManagedWalk(users, u, c, 1);
    }
  }
}
