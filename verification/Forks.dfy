/**
 Forks are classes with one parent each. Their comparisons are a partial order, and the two ways to
 compute a range of forks, along the parents and by comparing, agree when no fork in between is left out.
 */
module Forks {
  import opened Options

  datatype Fork = BaseFork | Fork(name: string, ignored: bool, bpo: bool, parent: Fork)

  /** `issubclass(a, b)`. */
  predicate IsSubclass(a: Fork, b: Fork) {
    a == b || (a.Fork? && IsSubclass(a.parent, b))
  }

  /** `a >= b`, `a > b`, `a <= b` and `a < b`. */
  predicate Ge(a: Fork, b: Fork) {
    a == b || IsSubclass(a, b)
  }

  predicate Gt(a: Fork, b: Fork) {
    a != b && IsSubclass(a, b)
  }

  predicate Le(a: Fork, b: Fork) {
    a == b || IsSubclass(b, a)
  }

  predicate Lt(a: Fork, b: Fork) {
    a != b && IsSubclass(b, a)
  }

  function Depth(a: Fork): nat {
    if a.BaseFork? then 0 else 1 + Depth(a.parent)
  }

  lemma {:induction false} SubclassDepth(a: Fork, b: Fork)
    requires IsSubclass(a, b)
    ensures Depth(b) <= Depth(a) && (Depth(b) == Depth(a) ==> a == b)
  {
    if a != b {
      SubclassDepth(a.parent, b);
    }
  }

  lemma {:induction false} SubclassTransitive(a: Fork, b: Fork, c: Fork)
    requires IsSubclass(a, b) && IsSubclass(b, c)
    ensures IsSubclass(a, c)
  {
    if a != b {
      SubclassTransitive(a.parent, b, c);
    }
  }

  /** The comparisons are one partial order. */
  lemma PartialOrder(a: Fork, b: Fork, c: Fork)
    ensures Le(a, a)
    ensures Le(a, b) && Le(b, a) ==> a == b
    ensures Le(a, b) && Le(b, c) ==> Le(a, c)
    ensures Ge(a, b) == Le(b, a) && Gt(a, b) == Lt(b, a) && Lt(a, b) == (Le(a, b) && a != b)
  {
    if Le(a, b) && Le(b, a) {
      SubclassDepth(a, b);
      SubclassDepth(b, a);
    }
    if Le(a, b) && Le(b, c) {
      SubclassTransitive(c, b, a);
    }
  }

  /** With one parent each, the forks below another are a chain. */
  lemma {:induction false} AncestorsCompare(a: Fork, b: Fork, c: Fork)
    requires Le(a, c) && Le(b, c)
    ensures Le(a, b) || Le(b, a)
  {
    if a != c && b != c {
      AncestorsCompare(a, b, c.parent);
    }
  }

  // ---- Along the parents ----

  function Range(from: Fork, until: Fork): seq<Fork> {
    if until.BaseFork? then []
    else if until == from then [from]
    else
      var below := Range(from, until.parent);
      if below == [] then [] else below + [until]
  }

  /** `forks_from_until`. */
  method ForksFromUntil(from: Fork, until: Fork) returns (forks: seq<Fork>)
    ensures forks == Range(from, until)
  {
    var prev := until;
    forks := [];
    while prev != BaseFork && prev != from
      invariant Range(from, until) == if Range(from, prev) == [] then [] else Range(from, prev) + forks
      decreases prev
    {
      ghost var below := Range(from, prev.parent);
      assert below != [] ==> below + [prev] + forks == below + ([prev] + forks);
      forks := [prev] + forks;
      prev := prev.parent;
    }
    if prev == BaseFork {
      return [];
    }
    forks := [from] + forks;
  }

  lemma LeParent(x: Fork, until: Fork)
    requires until.Fork?
    ensures Le(x, until) <==> x == until || Le(x, until.parent)
  {
    assert IsSubclass(until, x) <==> until == x || IsSubclass(until.parent, x);
    assert IsSubclass(x, x);
  }

  /** The forks from one to the other, each once, in ascending order; none if the first is not below the second. */
  lemma {:induction false} RangeIsChain(from: Fork, until: Fork)
    ensures var r := Range(from, until);
            && (r != [] <==> from != BaseFork && Le(from, until))
            && (r != [] ==> r[0] == from && r[|r| - 1] == until)
            && (forall i :: 0 < i < |r| ==> r[i].Fork? && r[i].parent == r[i - 1])
            && (forall x :: x in r <==> from != BaseFork && Le(from, x) && Le(x, until))
  {
    if until.Fork? && until != from {
      RangeIsChain(from, until.parent);
      forall x ensures x in Range(from, until) <==> from != BaseFork && Le(from, x) && Le(x, until) {
        LeParent(x, until);
        LeParent(from, until);
        PartialOrder(from, x, until.parent);
      }
    } else {
      forall x ensures x in Range(from, until) <==> from != BaseFork && Le(from, x) && Le(x, until) {
        PartialOrder(from, x, until);
        BaseIsLeast(from, x);
      }
    }
  }

  lemma BaseIsLeast(from: Fork, x: Fork)
    ensures Le(x, BaseFork) ==> x == BaseFork
    ensures Le(from, BaseFork) ==> from == BaseFork
  {}

  lemma {:induction false} RangeAscends(from: Fork, until: Fork, i: nat, j: nat)
    requires i < j < |Range(from, until)|
    ensures Lt(Range(from, until)[i], Range(from, until)[j])
    decreases j
  {
    var r := Range(from, until);
    RangeIsChain(from, until);
    assert r[j].parent == r[j - 1];
    if i < j - 1 {
      RangeAscends(from, until, i, j - 1);
      SubclassTransitive(r[j], r[j - 1], r[i]);
    }
    SubclassDepth(r[j].parent, r[i]);
  }

  // ---- By comparing ----

  predicate Between(froms: set<Fork>, untils: set<Fork>, x: Fork) {
    exists f, u :: f in froms && u in untils && Le(x, u) && Ge(x, f)
  }

  /** `get_from_until_fork_set`. */
  method GetFromUntilForkSet(forks: set<Fork>, froms: set<Fork>, untils: set<Fork>) returns (r: set<Fork>)
    ensures forall x :: x in r <==> x in forks && Between(froms, untils, x)
  {
    r := {};
    var todoFrom := froms;
    while todoFrom != {}
      invariant todoFrom <= froms
      invariant forall x :: x in r <==> x in forks && Between(froms - todoFrom, untils, x)
      decreases |todoFrom|
    {
      var from :| from in todoFrom;
      var inner := ForksAbove(forks, from, untils);
      ghost var done, next := froms - todoFrom, froms - (todoFrom - {from});
      assert next == done + {from};
      forall x ensures Between(next, untils, x) <==> Between(done, untils, x) || Between({from}, untils, x) {
        BetweenMore(done, from, untils, x);
      }
      r := r + inner;
      todoFrom := todoFrom - {from};
    }
    assert froms - {} == froms;
  }

  lemma BetweenMore(froms: set<Fork>, from: Fork, untils: set<Fork>, x: Fork)
    ensures Between(froms + {from}, untils, x) <==> Between(froms, untils, x) || Between({from}, untils, x)
  {
    if f, u :| f in froms && u in untils && Le(x, u) && Ge(x, f) {
      assert f in froms + {from};
    }
    if f, u :| f in {from} && u in untils && Le(x, u) && Ge(x, f) {
      assert f in froms + {from};
    }
    if f, u :| f in froms + {from} && u in untils && Le(x, u) && Ge(x, f) {
      assert f in froms || f in {from};
    }
  }

  /** The two inner loops. */
  method ForksAbove(forks: set<Fork>, from: Fork, untils: set<Fork>) returns (r: set<Fork>)
    ensures forall x :: x in r <==> x in forks && Between({from}, untils, x)
  {
    r := {};
    var todoUntil := untils;
    while todoUntil != {}
      invariant todoUntil <= untils
      invariant forall x :: x in r <==> x in forks && Ge(x, from) && exists u :: u in untils - todoUntil && Le(x, u)
      decreases |todoUntil|
    {
      var until :| until in todoUntil;
      var todo := forks;
      ghost var before := r;
      while todo != {}
        invariant todo <= forks
        invariant forall x :: x in r <==> x in before || (x in forks - todo && Le(x, until) && Ge(x, from))
        decreases |todo|
      {
        var fork :| fork in todo;
        if Le(fork, until) && Ge(fork, from) {
          r := r + {fork};
        }
        todo := todo - {fork};
      }
      todoUntil := todoUntil - {until};
    }
    assert untils - {} == untils;
  }

  /**
   The two agree exactly if every fork on the way is among the given ones. They are never asked about
   `BaseFork`, for which the first finds nothing and the second all forks up to the end.
   */
  lemma RangesAgree(forks: set<Fork>, from: Fork, until: Fork)
    requires from != BaseFork
    ensures (forall x :: x in Range(from, until) <==> x in forks && Between({from}, {until}, x)) <==>
            (forall x :: x in Range(from, until) ==> x in forks)
  {
    RangeIsChain(from, until);
    forall x ensures Between({from}, {until}, x) <==> Le(x, until) && Ge(x, from) {
      if Le(x, until) && Ge(x, from) {
        assert from in {from} && until in {until};
      }
    }
  }

  /** If with a fork its parent is always given too, all forks on the way to a given one are. */
  lemma {:induction false} ClosedRange(forks: set<Fork>, from: Fork, until: Fork)
    requires forall x :: x in forks && x.Fork? && x.parent.Fork? ==> x.parent in forks
    requires until in forks
    ensures forall x :: x in Range(from, until) ==> x in forks
  {
    if until.Fork? && until != from && until.parent.Fork? {
      ClosedRange(forks, from, until.parent);
    }
  }

  // ---- The forks of the repository ----

  const FRONTIER := Fork("Frontier", false, false, BaseFork)
  const HOMESTEAD := Fork("Homestead", false, false, FRONTIER)
  const BYZANTIUM := Fork("Byzantium", false, false, HOMESTEAD)
  const CONSTANTINOPLE := Fork("Constantinople", false, false, BYZANTIUM)
  const CONSTANTINOPLE_FIX := Fork("ConstantinopleFix", false, false, CONSTANTINOPLE)
  const ISTANBUL := Fork("Istanbul", false, false, CONSTANTINOPLE_FIX)
  const BERLIN := Fork("Berlin", false, false, ISTANBUL)
  const LONDON := Fork("London", false, false, BERLIN)
  const ARROW_GLACIER := Fork("ArrowGlacier", true, false, LONDON)
  const PARIS := Fork("Paris", false, false, LONDON)
  const SHANGHAI := Fork("Shanghai", false, false, PARIS)
  const CANCUN := Fork("Cancun", false, false, SHANGHAI)
  const PRAGUE := Fork("Prague", false, false, CANCUN)
  const OSAKA := Fork("Osaka", false, false, PRAGUE)
  const BPO1 := Fork("BPO1", false, true, OSAKA)
  const BPO2 := Fork("BPO2", false, true, BPO1)
  const BPO3 := Fork("BPO3", false, true, BPO2)
  const BPO4 := Fork("BPO4", false, true, BPO3)
  const BPO5 := Fork("BPO5", false, true, BPO4)
  const AMSTERDAM := Fork("Amsterdam", false, false, OSAKA)
  const EOFV1 := Fork("EOFv1", false, false, PRAGUE)

  /** `ALL_FORKS`: those that are not ignored. */
  const ALL_FORKS := {
    FRONTIER, HOMESTEAD, BYZANTIUM, CONSTANTINOPLE, CONSTANTINOPLE_FIX, ISTANBUL, BERLIN, LONDON, PARIS, SHANGHAI,
    CANCUN, PRAGUE, OSAKA, BPO1, BPO2, BPO3, BPO4, BPO5, AMSTERDAM, EOFV1
  }

  lemma ParentsAreNotIgnored(x: Fork)
    requires x in ALL_FORKS
    ensures !x.ignored && x.Fork? && (x.parent.Fork? ==> x.parent in ALL_FORKS)
  {}

  /** So up to a fork that is not ignored the two ranges agree. */
  lemma RangesOfAllForksAgree(from: Fork, until: Fork)
    requires from != BaseFork && until in ALL_FORKS
    ensures forall x :: x in Range(from, until) <==> x in ALL_FORKS && Between({from}, {until}, x)
  {
    forall x | x in ALL_FORKS ensures x.Fork? && (x.parent.Fork? ==> x.parent in ALL_FORKS) {
      ParentsAreNotIgnored(x);
    }
    ClosedRange(ALL_FORKS, from, until);
    RangesAgree(ALL_FORKS, from, until);
  }

  /** Up to an ignored fork they do not: along the parents it is found itself. */
  lemma IgnoredForkDisagrees()
    ensures Range(LONDON, ARROW_GLACIER) == [LONDON, ARROW_GLACIER]
    ensures ARROW_GLACIER !in ALL_FORKS && Between({LONDON}, {ARROW_GLACIER}, LONDON)
  {
    assert Range(LONDON, LONDON) == [LONDON];
    if ARROW_GLACIER in ALL_FORKS {
      ParentsAreNotIgnored(ARROW_GLACIER);
    }
    assert LONDON in {LONDON} && ARROW_GLACIER in {ARROW_GLACIER};
    assert Le(LONDON, ARROW_GLACIER);
  }

  // ---- The nearest fork that does more than change blob parameters ----

  /** `non_bpo_ancestor`. */
  method NonBpoAncestor(cls: Fork) returns (ancestor: Fork)
    requires cls != BaseFork
    ensures ancestor != BaseFork && Le(ancestor, cls)
    ensures ancestor.bpo ==> ancestor.parent == BaseFork
    ensures forall x :: Lt(ancestor, x) && Le(x, cls) ==> x.Fork? && x.bpo
  {
    ancestor := cls;
    PartialOrder(cls, cls, cls);
    assert forall x :: Lt(cls, x) && Le(x, cls) ==> false by {
      forall x | Lt(cls, x) && Le(x, cls) ensures false {
        PartialOrder(cls, x, cls);
      }
    }
    while ancestor.bpo
      invariant ancestor != BaseFork && Le(ancestor, cls)
      invariant forall x :: Lt(ancestor, x) && Le(x, cls) ==> x.Fork? && x.bpo
      decreases ancestor
    {
      if ancestor.parent == BaseFork {
        break;
      }
      var parent := ancestor.parent;
      assert Le(parent, ancestor);
      PartialOrder(parent, ancestor, cls);
      forall x | Lt(parent, x) && Le(x, cls) ensures x.Fork? && x.bpo {
        AncestorsCompare(x, ancestor, cls);
        if Le(x, ancestor) && x != ancestor {
          PartialOrder(x, parent, x);
        }
      }
      ancestor := parent;
    }
  }
}
