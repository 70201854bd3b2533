/** The conversation context of the assistant (ai/context.py). */
module Context {
  import opened Wrappers

  datatype Message = Message(role: string, content: string, tokens: nat, importance: real, pinned: bool)

  /* ---------- messages at chosen positions ---------- */

  function Below(n: nat): (positions: set<nat>)
    ensures forall p: nat :: p in positions <==> p < n
  {
    if n == 0 then {} else Below(n - 1) + {n - 1}
  }

  function Positions(msgs: seq<Message>): set<nat> {
    Below(|msgs|)
  }

  function Total(msgs: seq<Message>): nat {
    if msgs == [] then 0 else Total(msgs[..|msgs| - 1]) + msgs[|msgs| - 1].tokens
  }

  /** The messages at the chosen positions below n, in their order. */
  function Pick(msgs: seq<Message>, chosen: set<nat>, n: nat): seq<Message>
    requires n <= |msgs|
  {
    if n == 0 then []
    else if n - 1 in chosen then Pick(msgs, chosen, n - 1) + [msgs[n - 1]]
    else Pick(msgs, chosen, n - 1)
  }

  function Weight(msgs: seq<Message>, chosen: set<nat>, n: nat): nat
    requires n <= |msgs|
  {
    if n == 0 then 0
    else Weight(msgs, chosen, n - 1) + if n - 1 in chosen then msgs[n - 1].tokens else 0
  }

  function Count(chosen: set<nat>, n: nat): nat {
    if n == 0 then 0 else Count(chosen, n - 1) + if n - 1 in chosen then 1 else 0
  }

  lemma {:induction false} PickedTotal(msgs: seq<Message>, chosen: set<nat>, n: nat)
    requires n <= |msgs|
    ensures Total(Pick(msgs, chosen, n)) == Weight(msgs, chosen, n)
    decreases n
  {
    if n > 0 {
      PickedTotal(msgs, chosen, n - 1);
      var before := Pick(msgs, chosen, n - 1);
      assert (before + [msgs[n - 1]])[..|before|] == before;
    }
  }

  lemma {:induction false} PickAll(msgs: seq<Message>, chosen: set<nat>, n: nat)
    requires n <= |msgs| && forall p: nat | p < n :: p in chosen
    ensures Pick(msgs, chosen, n) == msgs[..n]
    decreases n
  {
    if n > 0 {
      PickAll(msgs, chosen, n - 1);
    }
  }

  /** A picked message stands at the number of picked positions before its own. */
  lemma {:induction false} PickedAt(msgs: seq<Message>, chosen: set<nat>, p: nat, n: nat)
    requires p < n <= |msgs|
    ensures |Pick(msgs, chosen, n)| == Count(chosen, n)
    ensures p in chosen ==> Count(chosen, p) < Count(chosen, n) && Pick(msgs, chosen, n)[Count(chosen, p)] == msgs[p]
    decreases n
  {
    if p < n - 1 {
      PickedAt(msgs, chosen, p, n - 1);
    } else {
      PickLength(msgs, chosen, p);
    }
  }

  lemma {:induction false} PickLength(msgs: seq<Message>, chosen: set<nat>, n: nat)
    requires n <= |msgs|
    ensures |Pick(msgs, chosen, n)| == Count(chosen, n)
    decreases n
  {
    if n > 0 {
      PickLength(msgs, chosen, n - 1);
    }
  }

  lemma {:induction false} CountGrows(chosen: set<nat>, p: nat, n: nat)
    requires p <= n
    ensures Count(chosen, p) <= Count(chosen, n)
    ensures p < n && p in chosen ==> Count(chosen, p) < Count(chosen, n)
    decreases n
  {
    if p < n {
      CountGrows(chosen, p, n - 1);
    }
  }

  /** The position of the k-th picked message. */
  lemma {:induction false} NthPicked(chosen: set<nat>, k: nat, n: nat) returns (p: nat)
    requires k < Count(chosen, n)
    ensures p < n && p in chosen && Count(chosen, p) == k
    decreases n
  {
    if k < Count(chosen, n - 1) {
      p := NthPicked(chosen, k, n - 1);
    } else {
      p := n - 1;
    }
  }

  lemma {:induction false} SameBelow(msgs: seq<Message>, chosen: set<nat>, other: set<nat>, n: nat)
    requires n <= |msgs| && forall p: nat | p < n :: p in chosen <==> p in other
    ensures Pick(msgs, chosen, n) == Pick(msgs, other, n) && Weight(msgs, chosen, n) == Weight(msgs, other, n)
    ensures Count(chosen, n) == Count(other, n)
    decreases n
  {
    if n > 0 {
      SameBelow(msgs, chosen, other, n - 1);
    }
  }

  function Without<T>(s: seq<T>, k: nat): seq<T>
    requires k < |s|
  {
    s[..k] + s[k + 1..]
  }

  /** Dropping a position pops its message. */
  lemma {:induction false} PickWithout(msgs: seq<Message>, chosen: set<nat>, p: nat, n: nat)
    requires p in chosen && p < n <= |msgs|
    ensures Count(chosen, p) < |Pick(msgs, chosen, n)|
    ensures Pick(msgs, chosen - {p}, n) == Without(Pick(msgs, chosen, n), Count(chosen, p))
    ensures Weight(msgs, chosen, n) == Weight(msgs, chosen - {p}, n) + msgs[p].tokens
    decreases n
  {
    PickedAt(msgs, chosen, p, n);
    if p < n - 1 {
      PickWithout(msgs, chosen, p, n - 1);
    } else {
      PickLength(msgs, chosen, p);
      SameBelow(msgs, chosen, chosen - {p}, p);
    }
  }

  lemma {:induction false} WeightGrows(msgs: seq<Message>, some: set<nat>, more: set<nat>, n: nat)
    requires n <= |msgs| && some <= more
    ensures Weight(msgs, some, n) <= Weight(msgs, more, n)
    decreases n
  {
    if n > 0 {
      WeightGrows(msgs, some, more, n - 1);
    }
  }

  /* ---------- ranking ---------- */

  /** Positions in increasing order of their keys, the earlier first among equal ones. */
  predicate Before(keys: seq<real>, p: nat, q: nat)
    requires p < |keys| && q < |keys|
  {
    keys[p] < keys[q] || (keys[p] == keys[q] && p < q)
  }

  predicate Within(keys: seq<real>, s: set<nat>) {
    forall p <- s :: p < |keys|
  }

  ghost predicate IsLast(keys: seq<real>, s: set<nat>, last: nat)
    requires Within(keys, s)
  {
    last in s && forall p <- s :: p == last || Before(keys, p, last)
  }

  lemma {:induction false} LastExists(keys: seq<real>, s: set<nat>) returns (last: nat)
    requires Within(keys, s) && s != {}
    ensures IsLast(keys, s, last)
    decreases s
  {
    var p: nat :| p in s;
    if s == {p} {
      last := p;
    } else {
      var rest := LastExists(keys, s - {p});
      last := if Before(keys, p, rest) then rest else p;
      forall q | q in s && q != last
        ensures Before(keys, q, last)
      {
        assert q == p || q in s - {p};
      }
    }
  }

  ghost predicate IsFirst(keys: seq<real>, s: set<nat>, first: nat)
    requires Within(keys, s)
  {
    first in s && forall p <- s :: p == first || Before(keys, first, p)
  }

  lemma {:induction false} FirstExists(keys: seq<real>, s: set<nat>) returns (first: nat)
    requires Within(keys, s) && s != {}
    ensures IsFirst(keys, s, first)
    decreases s
  {
    var p: nat :| p in s;
    if s == {p} {
      first := p;
    } else {
      var rest := FirstExists(keys, s - {p});
      first := if Before(keys, rest, p) then rest else p;
      forall q | q in s && q != first
        ensures Before(keys, first, q)
      {
        assert q == p || q in s - {p};
      }
    }
  }

  function Importance(msgs: seq<Message>): (keys: seq<real>)
    ensures |keys| == |msgs|
  {
    seq(|msgs|, i requires 0 <= i < |msgs| => msgs[i].importance)
  }

  /* ---------- eviction ---------- */

  /** What may be evicted: unpinned messages other than the last four. */
  function Candidates(msgs: seq<Message>): set<nat> {
    set p <- Positions(msgs) | p + 4 < |msgs| && !msgs[p].pinned
  }

  function Remaining(msgs: seq<Message>, evicted: set<nat>): nat {
    Weight(msgs, Positions(msgs) - evicted, |msgs|)
  }

  ghost predicate LeastFirst(msgs: seq<Message>, evicted: set<nat>) {
    && evicted <= Candidates(msgs)
    && forall e, c :: e in evicted && c in Candidates(msgs) && c !in evicted ==> Before(Importance(msgs), e, c)
  }

  ghost predicate NoneTooMany(msgs: seq<Message>, budget: int, evicted: set<nat>)
    requires LeastFirst(msgs, evicted)
  {
    forall e <- evicted :: IsLast(Importance(msgs), evicted, e) ==> Remaining(msgs, evicted - {e}) > budget
  }

  /**
   The evicted messages are the least important candidates, the older first among equals; enough of
   them to meet the budget, unless no candidate is left; and no more than that.
   */
  ghost predicate IsEviction(msgs: seq<Message>, budget: int, evicted: set<nat>) {
    && LeastFirst(msgs, evicted)
    && (Remaining(msgs, evicted) <= budget || evicted == Candidates(msgs))
    && NoneTooMany(msgs, budget, evicted)
  }

  lemma {:induction false} LastIsNew(msgs: seq<Message>, evicted: set<nat>, other: set<nat>, last: nat)
    requires LeastFirst(msgs, evicted) && other <= Candidates(msgs) && evicted < other
    requires IsLast(Importance(msgs), other, last)
    ensures last !in evicted
  {
    var o: nat :| o in other && o !in evicted;
  }

  lemma {:induction false} SmallerEviction(msgs: seq<Message>, budget: int, evicted: set<nat>, other: set<nat>)
    requires LeastFirst(msgs, evicted) && LeastFirst(msgs, other) && evicted < other
    requires NoneTooMany(msgs, budget, other)
    ensures Remaining(msgs, evicted) > budget && evicted != Candidates(msgs)
  {
    var last := LastExists(Importance(msgs), other);
    LastIsNew(msgs, evicted, other, last);
    LessEvictedMoreRemains(msgs, evicted, other - {last});
  }

  lemma {:induction false} LessEvictedMoreRemains(msgs: seq<Message>, evicted: set<nat>, other: set<nat>)
    requires evicted <= other
    ensures Remaining(msgs, other) <= Remaining(msgs, evicted)
  {
    WeightGrows(msgs, Positions(msgs) - other, Positions(msgs) - evicted, |msgs|);
  }

  lemma {:induction false} EvictionsNest(msgs: seq<Message>, evicted: set<nat>, other: set<nat>)
    requires LeastFirst(msgs, evicted) && LeastFirst(msgs, other)
    ensures evicted <= other || other <= evicted
  {
    if e: nat :| e in evicted && e !in other {
      forall o: nat | o in other
        ensures o in evicted
      {
        assert Before(Importance(msgs), o, e);
      }
    }
  }

  /** These conditions leave no choice. */
  lemma {:induction false} EvictionIsDetermined(msgs: seq<Message>, budget: int, evicted: set<nat>, other: set<nat>)
    requires IsEviction(msgs, budget, evicted) && IsEviction(msgs, budget, other)
    ensures evicted == other
  {
    EvictionsNest(msgs, evicted, other);
    if evicted < other {
      SmallerEviction(msgs, budget, evicted, other);
      assert false;
    } else if other < evicted {
      SmallerEviction(msgs, budget, other, evicted);
      assert false;
    }
  }

  function Kept(msgs: seq<Message>, evicted: set<nat>): set<nat> {
    Positions(msgs) - evicted
  }

  function Survivors(msgs: seq<Message>, evicted: set<nat>): seq<Message> {
    Pick(msgs, Kept(msgs, evicted), |msgs|)
  }

  predicate Evictable(msgs: seq<Message>, i: nat) {
    i + 4 < |msgs| && !msgs[i].pinned
  }

  /** The message the next turn of the loop evicts. */
  ghost predicate IsLeast(msgs: seq<Message>, i: nat) {
    && Evictable(msgs, i)
    && forall j: nat :: Evictable(msgs, j) ==> i == j || Before(Importance(msgs), i, j)
  }

  lemma {:induction false} LastFourCounted(msgs: seq<Message>, evicted: set<nat>, n: nat)
    requires evicted <= Candidates(msgs) && |msgs| <= n + 4 && n <= |msgs|
    ensures Count(Kept(msgs, evicted), |msgs|) == Count(Kept(msgs, evicted), n) + (|msgs| - n)
    decreases |msgs| - n
  {
    if n < |msgs| {
      LastFourCounted(msgs, evicted, n + 1);
    }
  }

  /** Positions of the whole conversation and of what is left of it correspond. */
  lemma {:induction false} SurvivorAt(msgs: seq<Message>, evicted: set<nat>, p: nat)
    requires evicted <= Candidates(msgs) && p + 4 < |msgs| && p !in evicted
    ensures var i := Count(Kept(msgs, evicted), p);
      i + 4 < |Survivors(msgs, evicted)| && Survivors(msgs, evicted)[i] == msgs[p]
  {
    PickedAt(msgs, Kept(msgs, evicted), p, |msgs|);
    LastFourCounted(msgs, evicted, |msgs| - 4);
    CountGrows(Kept(msgs, evicted), p, |msgs| - 4);
  }

  lemma {:induction false} SurvivorFrom(msgs: seq<Message>, evicted: set<nat>, i: nat) returns (p: nat)
    requires evicted <= Candidates(msgs) && i + 4 < |Survivors(msgs, evicted)|
    ensures p + 4 < |msgs| && p !in evicted && i == Count(Kept(msgs, evicted), p)
    ensures Survivors(msgs, evicted)[i] == msgs[p]
  {
    var kept := Kept(msgs, evicted);
    PickLength(msgs, kept, |msgs|);
    if |msgs| <= 4 {
      LastFourCounted(msgs, evicted, 0);
      assert false;
    }
    LastFourCounted(msgs, evicted, |msgs| - 4);
    p := NthPicked(kept, i, |msgs| - 4);
    SurvivorAt(msgs, evicted, p);
  }

  /** The least survivor is the least candidate not yet evicted. */
  lemma {:induction false} LeastSurvivor(msgs: seq<Message>, evicted: set<nat>, i: nat, p: nat)
    requires evicted <= Candidates(msgs) && p + 4 < |msgs| && p !in evicted && i == Count(Kept(msgs, evicted), p)
    requires IsLeast(Survivors(msgs, evicted), i) && Survivors(msgs, evicted)[i] == msgs[p]
    ensures p in Candidates(msgs)
    ensures forall c <- Candidates(msgs) - evicted :: c == p || Before(Importance(msgs), p, c)
  {
    var kept := Kept(msgs, evicted);
    forall c | c in Candidates(msgs) - evicted && c != p
      ensures Before(Importance(msgs), p, c)
    {
      SurvivorAt(msgs, evicted, c);
      if c < p {
        CountGrows(kept, c, p);
      } else {
        CountGrows(kept, p, c);
      }
      assert Evictable(Survivors(msgs, evicted), Count(kept, c));
    }
  }

  /** One turn of the loop keeps to the least important first. */
  lemma {:induction false} EvictNext(msgs: seq<Message>, budget: int, evicted: set<nat>, i: nat) returns (p: nat)
    requires LeastFirst(msgs, evicted) && NoneTooMany(msgs, budget, evicted) && Remaining(msgs, evicted) > budget
    requires IsLeast(Survivors(msgs, evicted), i)
    ensures p in Candidates(msgs) - evicted
    ensures LeastFirst(msgs, evicted + {p}) && NoneTooMany(msgs, budget, evicted + {p})
    ensures Survivors(msgs, evicted + {p}) == Without(Survivors(msgs, evicted), i)
    ensures Remaining(msgs, evicted + {p}) == Remaining(msgs, evicted) - Survivors(msgs, evicted)[i].tokens
  {
    p := SurvivorFrom(msgs, evicted, i);
    LeastSurvivor(msgs, evicted, i, p);
    var more := evicted + {p};
    assert Kept(msgs, evicted) - {p} == Kept(msgs, more);
    PickWithout(msgs, Kept(msgs, evicted), p, |msgs|);
    NextNotTooMany(msgs, budget, evicted, p);
  }

  lemma {:induction false} NextNotTooMany(msgs: seq<Message>, budget: int, evicted: set<nat>, p: nat)
    requires LeastFirst(msgs, evicted) && LeastFirst(msgs, evicted + {p}) && p in Candidates(msgs) - evicted
    requires Remaining(msgs, evicted) > budget
    ensures NoneTooMany(msgs, budget, evicted + {p})
  {
    var more := evicted + {p};
    forall e | e in more && IsLast(Importance(msgs), more, e)
      ensures e == p
    {
      assert e == p || Before(Importance(msgs), p, e);
    }
    assert more - {p} == evicted;
  }

  lemma {:induction false} NothingEvictableLeft(msgs: seq<Message>, evicted: set<nat>)
    requires evicted <= Candidates(msgs)
    requires forall i: nat :: !Evictable(Survivors(msgs, evicted), i)
    ensures evicted == Candidates(msgs)
  {
    forall c | c in Candidates(msgs)
      ensures c in evicted
    {
      if c !in evicted {
        assert !Evictable(Survivors(msgs, evicted), Count(Kept(msgs, evicted), c));
        SurvivorAt(msgs, evicted, c);
      }
    }
  }

  /* ---------- selection ---------- */

  /** The last four messages and the pinned ones. */
  function Must(msgs: seq<Message>): set<nat> {
    set p <- Positions(msgs) | |msgs| <= p + 4 || msgs[p].pinned
  }

  function Optional(msgs: seq<Message>): set<nat> {
    Positions(msgs) - Must(msgs)
  }

  /** The keys by which the most important messages come first. */
  function Priority(msgs: seq<Message>): (keys: seq<real>)
    ensures |keys| == |msgs|
  {
    seq(|msgs|, i requires 0 <= i < |msgs| => -msgs[i].importance)
  }

  /** The chosen messages that get their tokens before p does. */
  function Above(msgs: seq<Message>, chosen: set<nat>, p: nat): set<nat>
    requires chosen <= Positions(msgs) && p < |msgs|
  {
    set q <- chosen | q in Must(msgs) || Before(Priority(msgs), q, p)
  }

  /** What the mandatory and the more important chosen messages leave of the budget. */
  function Left(msgs: seq<Message>, budget: int, chosen: set<nat>, p: nat): int
    requires chosen <= Positions(msgs) && p < |msgs|
  {
    budget - Weight(msgs, Above(msgs, chosen, p), |msgs|)
  }

  predicate Fits(msgs: seq<Message>, budget: int, chosen: set<nat>, p: nat)
    requires chosen <= Positions(msgs) && p < |msgs|
  {
    0 < Left(msgs, budget, chosen, p) && msgs[p].tokens <= Left(msgs, budget, chosen, p)
  }

  /** All mandatory messages, and just those others that fit into what the more important ones leave. */
  ghost predicate IsSelection(msgs: seq<Message>, budget: int, chosen: set<nat>) {
    && Must(msgs) <= chosen <= Positions(msgs)
    && forall p <- Optional(msgs) :: p in chosen <==> Fits(msgs, budget, chosen, p)
  }

  predicate Ranked(keys: seq<real>, order: seq<nat>) {
    && (forall p <- order :: p < |keys|)
    && forall i, j | 0 <= i < j < |order| :: order[i] in order && order[j] in order && Before(keys, order[i], order[j])
  }

  /** Puts a position behind those it does not come before. */
  function Insert(keys: seq<real>, order: seq<nat>, p: nat): (longer: seq<nat>)
    requires p < |keys| && forall q <- order :: q < |keys|
    ensures forall q :: q in longer <==> q == p || q in order
  {
    if order == [] then [p]
    else
      var front, last := order[..|order| - 1], order[|order| - 1];
      assert order == front + [last] && last in order && forall q <- front :: q in order;
      if Before(keys, last, p) then order + [p] else Insert(keys, front, p) + [last]
  }

  lemma {:induction false} AppendRanks(keys: seq<real>, front: seq<nat>, last: nat)
    requires Ranked(keys, front) && last < |keys| && forall q <- front :: Before(keys, q, last)
    ensures Ranked(keys, front + [last])
  {
  }

  lemma {:induction false} FrontRanks(keys: seq<real>, front: seq<nat>, last: nat)
    requires Ranked(keys, front + [last])
    ensures Ranked(keys, front) && last < |keys| && forall q <- front :: Before(keys, q, last)
  {
    var order := front + [last];
    assert last in order && forall q <- front :: q in order;
    forall i | 0 <= i < |front|
      ensures front[i] in front && Before(keys, front[i], last)
    {
      assert Before(keys, order[i], order[|front|]);
    }
    forall i, j | 0 <= i < j < |front|
      ensures front[i] in front && front[j] in front && Before(keys, front[i], front[j])
    {
      assert Before(keys, order[i], order[j]);
    }
  }

  lemma {:induction false} InsertRanks(keys: seq<real>, order: seq<nat>, p: nat)
    requires Ranked(keys, order) && p < |keys| && p !in order
    ensures Ranked(keys, Insert(keys, order, p))
    decreases order
  {
    if order != [] {
      var front, last := order[..|order| - 1], order[|order| - 1];
      assert order == front + [last];
      FrontRanks(keys, front, last);
      if Before(keys, last, p) {
        AppendRanks(keys, order, p);
      } else {
        InsertRanks(keys, front, p);
        AppendRanks(keys, Insert(keys, front, p), last);
      }
    }
  }

  /* ---------- what a selection is worth ---------- */

  lemma {:induction false} AboveLast(msgs: seq<Message>, chosen: set<nat>, last: nat)
    requires Must(msgs) <= chosen <= Positions(msgs)
    requires IsLast(Priority(msgs), chosen - Must(msgs), last)
    ensures Above(msgs, chosen, last) == chosen - {last}
  {
  }

  /** The selection stays within the budget, unless the mandatory messages alone exceed it. */
  lemma {:induction false} SelectionWeight(msgs: seq<Message>, budget: int, chosen: set<nat>)
    requires IsSelection(msgs, budget, chosen)
    ensures Weight(msgs, chosen, |msgs|) <= budget || chosen == Must(msgs)
  {
    if chosen != Must(msgs) {
      var last := LastExists(Priority(msgs), chosen - Must(msgs));
      AboveLast(msgs, chosen, last);
      assert last in Optional(msgs);
      PickWithout(msgs, chosen, last, |msgs|);
    }
  }

  /** Two selections that agree on all that comes before p agree on p. */
  lemma {:induction false} SelectionsAgree(msgs: seq<Message>, budget: int, chosen: set<nat>, other: set<nat>, p: nat)
    requires IsSelection(msgs, budget, chosen) && IsSelection(msgs, budget, other) && p in Optional(msgs)
    requires forall q <- Optional(msgs) :: Before(Priority(msgs), q, p) ==> (q in chosen <==> q in other)
    ensures p in chosen <==> p in other
  {
    forall q
      ensures q in Above(msgs, chosen, p) <==> q in Above(msgs, other, p)
    {
      assert q in Must(msgs) ==> q in chosen && q in other;
      assert q in chosen || q in other ==> q in Must(msgs) || q in Optional(msgs);
    }
    assert Above(msgs, chosen, p) == Above(msgs, other, p);
  }

  /** There is just one selection. */
  lemma {:induction false} SelectionIsDetermined(msgs: seq<Message>, budget: int, chosen: set<nat>, other: set<nat>)
    requires IsSelection(msgs, budget, chosen) && IsSelection(msgs, budget, other)
    ensures chosen == other
  {
    var differ := set p <- Optional(msgs) | (p in chosen) != (p in other);
    if differ != {} {
      var p := FirstExists(Priority(msgs), differ);
      forall q | q in Optional(msgs) && Before(Priority(msgs), q, p)
        ensures q in chosen <==> q in other
      {
        if q in differ {
          assert false;
        }
      }
      SelectionsAgree(msgs, budget, chosen, other, p);
      assert false;
    }
    forall p
      ensures p in chosen <==> p in other
    {
      assert p in chosen || p in other ==> p in Must(msgs) || p in Optional(msgs);
    }
  }

  lemma {:induction false} AllWeigh(msgs: seq<Message>)
    ensures Weight(msgs, Positions(msgs), |msgs|) == Total(msgs)
  {
    PickAll(msgs, Positions(msgs), |msgs|);
    PickedTotal(msgs, Positions(msgs), |msgs|);
    assert msgs[..|msgs|] == msgs;
  }

  lemma {:induction false} AllFit(msgs: seq<Message>, budget: int, last: nat, p: nat)
    requires IsLast(Priority(msgs), Optional(msgs), last) && p in Optional(msgs)
    requires Total(msgs) <= budget && Total(msgs) - msgs[last].tokens < budget
    ensures Fits(msgs, budget, Positions(msgs), p)
  {
    AllWeigh(msgs);
    var all := Positions(msgs);
    PickWithout(msgs, all, last, |msgs|);
    if p == last {
      AboveLast(msgs, all, last);
    } else {
      PickWithout(msgs, all - {last}, p, |msgs|);
      WeightGrows(msgs, Above(msgs, all, p), all - {last} - {p}, |msgs|);
    }
  }

  /**
   Everything is selected exactly when it fits the budget and something is still left of the budget when
   the least important message has its turn; a message of no tokens is dropped when nothing is left.
   */
  lemma {:induction false} EverythingSelectedIff(msgs: seq<Message>, budget: int, chosen: set<nat>)
    requires IsSelection(msgs, budget, chosen)
    ensures Optional(msgs) == {} ==> chosen == Positions(msgs)
    ensures forall last: nat :: IsLast(Priority(msgs), Optional(msgs), last) ==>
      (chosen == Positions(msgs) <==> Total(msgs) <= budget && Total(msgs) - msgs[last].tokens < budget)
  {
    var all := Positions(msgs);
    AllWeigh(msgs);
    forall last: nat | IsLast(Priority(msgs), Optional(msgs), last)
      ensures chosen == all <==> Total(msgs) <= budget && Total(msgs) - msgs[last].tokens < budget
    {
      PickWithout(msgs, all, last, |msgs|);
      AboveLast(msgs, all, last);
      if Total(msgs) <= budget && Total(msgs) - msgs[last].tokens < budget {
        forall p | p in Optional(msgs)
          ensures Fits(msgs, budget, all, p)
        {
          AllFit(msgs, budget, last, p);
        }
        SelectionIsDetermined(msgs, budget, chosen, all);
      }
    }
  }

  /** A conversation below the budget is passed on whole. */
  lemma {:induction false} BelowBudgetIsWhole(msgs: seq<Message>, budget: int, chosen: set<nat>)
    requires IsSelection(msgs, budget, chosen) && Total(msgs) < budget
    ensures Pick(msgs, chosen, |msgs|) == msgs
  {
    EverythingSelectedIff(msgs, budget, chosen);
    if Optional(msgs) != {} {
      var last := LastExists(Priority(msgs), Optional(msgs));
    }
    PickAll(msgs, chosen, |msgs|);
    assert msgs[..|msgs|] == msgs;
  }

  /* ---------- filling the budget ---------- */

  ghost predicate IsOrder(msgs: seq<Message>, order: seq<nat>) {
    Ranked(Priority(msgs), order) && forall p :: p in order <==> p in Optional(msgs)
  }

  /** The first i optional messages have had their turn. */
  ghost predicate Filled(msgs: seq<Message>, budget: int, order: seq<nat>, i: nat, chosen: set<nat>) {
    && i <= |order| && IsOrder(msgs, order)
    && Must(msgs) <= chosen <= Positions(msgs)
    && (forall q <- chosen :: q in Must(msgs) || q in order[..i])
    && forall k | 0 <= k < i :: order[k] < |msgs| && (order[k] in chosen <==> Fits(msgs, budget, chosen, order[k]))
  }

  /** Everything chosen so far comes before all that is still to come. */
  lemma {:induction false} AllAbove(msgs: seq<Message>, budget: int, order: seq<nat>, i: nat, chosen: set<nat>, k: nat)
    requires Filled(msgs, budget, order, i, chosen) && i <= k < |order|
    ensures order[k] in Optional(msgs) && order[k] !in chosen && Above(msgs, chosen, order[k]) == chosen
  {
    var p := order[k];
    assert p in order;
    forall q | q in chosen && q !in Must(msgs)
      ensures Before(Priority(msgs), q, p)
    {
      var j :| 0 <= j < i && order[..i][j] == q;
      assert Before(Priority(msgs), order[j], order[k]);
    }
  }

  lemma {:induction false} FillNext(msgs: seq<Message>, budget: int, order: seq<nat>, i: nat, chosen: set<nat>)
    requires Filled(msgs, budget, order, i, chosen) && i < |order|
    ensures var p := order[i];
      && p !in chosen && p < |msgs| && Left(msgs, budget, chosen, p) == budget - Weight(msgs, chosen, |msgs|)
      && Filled(msgs, budget, order, i + 1, if Fits(msgs, budget, chosen, p) then chosen + {p} else chosen)
      && Weight(msgs, chosen + {p}, |msgs|) == Weight(msgs, chosen, |msgs|) + msgs[p].tokens
  {
    var p := order[i];
    AllAbove(msgs, budget, order, i, chosen, i);
    var more := chosen + {p};
    assert more - {p} == chosen;
    PickWithout(msgs, more, p, |msgs|);
    assert order[..i + 1] == order[..i] + [p];
    if Fits(msgs, budget, chosen, p) {
      assert Above(msgs, more, p) == chosen;
      forall k | 0 <= k < i
        ensures order[k] in more <==> Fits(msgs, budget, more, order[k])
      {
        assert order[k] in order && Before(Priority(msgs), order[k], p);
        assert Above(msgs, more, order[k]) == Above(msgs, chosen, order[k]);
      }
    }
  }

  lemma {:induction false} FillDone(msgs: seq<Message>, budget: int, order: seq<nat>, i: nat, chosen: set<nat>)
    requires Filled(msgs, budget, order, i, chosen)
    requires i == |order| || budget <= Weight(msgs, chosen, |msgs|)
    ensures IsSelection(msgs, budget, chosen)
  {
    forall p | p in Optional(msgs)
      ensures p in chosen <==> Fits(msgs, budget, chosen, p)
    {
      assert p in order;
      var k: nat :| k < |order| && order[k] == p;
      if k >= i {
        AllAbove(msgs, budget, order, i, chosen, k);
      }
    }
  }

  /* ---------- eviction and selection in the messages' own terms ---------- */

  /** Message p is of less importance than q, or of the same and older. */
  predicate LessImportant(msgs: seq<Message>, p: nat, q: nat)
    requires p < |msgs| && q < |msgs|
  {
    msgs[p].importance < msgs[q].importance || (msgs[p].importance == msgs[q].importance && p < q)
  }

  /**
   Unpinned messages before the last four are evicted, less important ones first, until the budget is met or
   none is left, and the last of them only because it was not met before.
   */
  ghost predicate EvictsByImportance(msgs: seq<Message>, budget: int, evicted: set<nat>) {
    && (forall e <- evicted :: e + 4 < |msgs| && !msgs[e].pinned)
    && (forall e: nat, c: nat | e in evicted && c + 4 < |msgs| && !msgs[c].pinned && c !in evicted ::
         LessImportant(msgs, e, c))
    && (Remaining(msgs, evicted) <= budget || forall c: nat | c + 4 < |msgs| && !msgs[c].pinned :: c in evicted)
    && (forall e <- evicted | (forall d <- evicted :: d == e || LessImportant(msgs, d, e)) ::
         Remaining(msgs, evicted - {e}) > budget)
  }

  lemma {:induction false} EvictionByImportance(msgs: seq<Message>, budget: int, evicted: set<nat>)
    requires IsEviction(msgs, budget, evicted)
    ensures EvictsByImportance(msgs, budget, evicted)
  {
    forall e: nat, c: nat | e in evicted && c + 4 < |msgs| && !msgs[c].pinned && c !in evicted
      ensures LessImportant(msgs, e, c)
    {
      assert c in Candidates(msgs) && Before(Importance(msgs), e, c);
    }
    forall e | e in evicted && forall d <- evicted :: d == e || LessImportant(msgs, d, e)
      ensures Remaining(msgs, evicted - {e}) > budget
    {
      assert IsLast(Importance(msgs), evicted, e);
    }
  }

  /** What is left of the budget after the mandatory messages and the chosen ones that are more important than p. */
  function LeftFor(msgs: seq<Message>, budget: int, chosen: set<nat>, p: nat): int
    requires p < |msgs| && forall q <- chosen :: q < |msgs|
  {
    budget - Weight(msgs, set q <- chosen | msgs[q].pinned || |msgs| <= q + 4
      || msgs[q].importance > msgs[p].importance || (msgs[q].importance == msgs[p].importance && q < p), |msgs|)
  }

  /**
   The pinned messages and the last four are selected, and of the others, the more important first and the older
   first among equals, those that fit into what is left.
   */
  ghost predicate SelectsByImportance(msgs: seq<Message>, budget: int, chosen: set<nat>) {
    && (forall q <- chosen :: q < |msgs|)
    && forall p: nat | p < |msgs| :: p in chosen <==>
         || msgs[p].pinned || |msgs| <= p + 4
         || (0 < LeftFor(msgs, budget, chosen, p) && msgs[p].tokens <= LeftFor(msgs, budget, chosen, p))
  }

  lemma {:induction false} SelectionByImportance(msgs: seq<Message>, budget: int, chosen: set<nat>)
    requires IsSelection(msgs, budget, chosen)
    ensures SelectsByImportance(msgs, budget, chosen)
  {
    forall p: nat | p < |msgs|
      ensures LeftFor(msgs, budget, chosen, p) == Left(msgs, budget, chosen, p)
      ensures p in Must(msgs) <==> msgs[p].pinned || |msgs| <= p + 4
      ensures p in Optional(msgs) <==> !(msgs[p].pinned || |msgs| <= p + 4)
    {
      assert Above(msgs, chosen, p) == set q <- chosen | msgs[q].pinned || |msgs| <= q + 4
        || msgs[q].importance > msgs[p].importance || (msgs[q].importance == msgs[p].importance && q < p);
    }
  }

  /* ---------- the manager ---------- */

  lemma {:induction false} TotalUnchanged(msgs: seq<Message>, i: nat, m: Message)
    requires i < |msgs| && m.tokens == msgs[i].tokens
    ensures Total(msgs[i := m]) == Total(msgs)
    decreases msgs
  {
    var n := |msgs| - 1;
    if i < n {
      TotalUnchanged(msgs[..n], i, m);
      assert msgs[i := m][..n] == msgs[..n][i := m];
    } else {
      assert msgs[i := m][..n] == msgs[..n];
    }
  }

  lemma {:induction false} SurvivorsTotal(msgs: seq<Message>, evicted: set<nat>)
    ensures Total(Survivors(msgs, evicted)) == Remaining(msgs, evicted)
  {
    PickedTotal(msgs, Kept(msgs, evicted), |msgs|);
  }

  lemma {:induction false} NoneEvicted(msgs: seq<Message>, budget: int)
    ensures Survivors(msgs, {}) == msgs && Remaining(msgs, {}) == Total(msgs)
    ensures LeastFirst(msgs, {}) && NoneTooMany(msgs, budget, {})
  {
    PickAll(msgs, Kept(msgs, {}), |msgs|);
    assert msgs[..|msgs|] == msgs;
    SurvivorsTotal(msgs, {});
  }

  /** Pinned messages and the last four survive. */
  lemma {:induction false} MandatorySurvive(msgs: seq<Message>, evicted: set<nat>, p: nat)
    requires evicted <= Candidates(msgs) && p < |msgs| && (msgs[p].pinned || |msgs| <= p + 4)
    ensures msgs[p] in Survivors(msgs, evicted)
  {
    PickedAt(msgs, Kept(msgs, evicted), p, |msgs|);
  }

  class ContextManager {
    const budget: int
    var messages: seq<Message>
    var total: int

    ghost predicate Valid()
      reads this
    {
      total == Total(messages)
    }

    constructor (budget: int)
      ensures Valid() && messages == [] && this.budget == budget
    {
      this.budget, messages, total := budget, [], 0;
    }

    method LeastCandidate() returns (least: Option<nat>)
      ensures least.Some? ==> IsLeast(messages, least.value)
      ensures least.None? ==> forall i: nat :: !Evictable(messages, i)
    {
      least := None;
      var i := 0;
      while i + 4 < |messages|
        invariant least.None? ==> forall j: nat | j < i :: !Evictable(messages, j)
        invariant least.Some? ==> least.value < i && Evictable(messages, least.value)
        invariant least.Some? ==> forall j: nat | j < i ::
          Evictable(messages, j) ==> j == least.value || Before(Importance(messages), least.value, j)
      {
        if !messages[i].pinned && (least.None? || messages[i].importance < messages[least.value].importance) {
          least := Some(i);
        }
        i := i + 1;
      }
    }

    method EvictIfNeeded() returns (ghost evicted: set<nat>)
      requires Valid()
      modifies this`messages, this`total
      ensures Valid()
      ensures IsEviction(old(messages), budget, evicted) && EvictsByImportance(old(messages), budget, evicted)
      ensures messages == Survivors(old(messages), evicted)
    {
      ghost var all := messages;
      evicted := {};
      NoneEvicted(all, budget);
      while total > budget && |messages| > 4
        invariant LeastFirst(all, evicted) && NoneTooMany(all, budget, evicted)
        invariant messages == Survivors(all, evicted) && total == Remaining(all, evicted)
        decreases |messages|
      {
        var least := LeastCandidate();
        if least.None? {
          NothingEvictableLeft(all, evicted);
          break;
        }
        ghost var p := EvictNext(all, budget, evicted, least.value);
        evicted := evicted + {p};
        total := total - messages[least.value].tokens;
        messages := messages[..least.value] + messages[least.value + 1..];
      }
      if total > budget && |messages| <= 4 {
        NothingEvictableLeft(all, evicted);
      }
      SurvivorsTotal(all, evicted);
      EvictionByImportance(all, budget, evicted);
    }

    method Add(msg: Message) returns (ghost evicted: set<nat>)
      requires Valid()
      modifies this`messages, this`total
      ensures Valid()
      ensures IsEviction(old(messages) + [msg], budget, evicted)
      ensures EvictsByImportance(old(messages) + [msg], budget, evicted)
      ensures messages == Survivors(old(messages) + [msg], evicted)
    {
      assert (messages + [msg])[..|messages|] == messages;
      messages := messages + [msg];
      total := total + msg.tokens;
      evicted := EvictIfNeeded();
    }

    method Pin(index: int) returns (pinned: bool)
      requires Valid()
      modifies this`messages
      ensures Valid()
      ensures pinned <==> 0 <= index < |old(messages)|
      ensures messages ==
        if pinned then old(messages)[index := old(messages)[index].(pinned := true)] else old(messages)
    {
      pinned := 0 <= index < |messages|;
      if pinned {
        TotalUnchanged(messages, index, messages[index].(pinned := true));
        messages := messages[index := messages[index].(pinned := true)];
      }
    }

    /** The positions that compete for the budget, the most important first. */
    method RankOptional() returns (order: seq<nat>)
      ensures IsOrder(messages, order)
    {
      order := [];
      for p := 0 to |messages|
        invariant Ranked(Priority(messages), order)
        invariant forall q :: q in order <==> q < p && q in Optional(messages)
      {
        if p !in Must(messages) {
          InsertRanks(Priority(messages), order, p);
          order := Insert(Priority(messages), order, p);
        }
      }
    }

    /** The messages for the prompt, in the order of the conversation. */
    method SelectMessages() returns (selected: seq<Message>, ghost chosen: set<nat>)
      requires Valid()
      ensures IsSelection(messages, budget, chosen) && SelectsByImportance(messages, budget, chosen)
      ensures selected == Pick(messages, chosen, |messages|)
      ensures Total(selected) <= budget || chosen == Must(messages)
      ensures total < budget ==> selected == messages
    {
      var order := RankOptional();
      var taken := Must(messages);
      var left := budget - Weight(messages, taken, |messages|);
      var i := 0;
      while i < |order| && left > 0
        invariant Filled(messages, budget, order, i, taken)
        invariant left == budget - Weight(messages, taken, |messages|)
      {
        FillNext(messages, budget, order, i, taken);
        var p := order[i];
        if messages[p].tokens <= left {
          taken := taken + {p};
          left := left - messages[p].tokens;
        }
        i := i + 1;
      }
      chosen := taken;
      FillDone(messages, budget, order, i, chosen);
      SelectionByImportance(messages, budget, chosen);
      selected := Pick(messages, taken, |messages|);
      PickedTotal(messages, chosen, |messages|);
      SelectionWeight(messages, budget, chosen);
      if total < budget {
        BelowBudgetIsWhole(messages, budget, chosen);
      }
    }
  }
}
