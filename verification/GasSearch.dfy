/**
 The gas limit search of `make_state_test_fixture`: a binary search whose probe runs the transaction
 again with another gas limit and compares the outcome.
 */
module GasSearch {
  import opened Options

  /** Comparing the outcomes can raise, as comparing traces does. */
  datatype Verdict = Passes | Fails | Raises

  /** What the search comes to: the stored `_gas_optimization`, or what is raised. */
  datatype Outcome = Stored(gas: int) | Impossible | TooMuch | AssertionError | UnboundLocal | Raised

  datatype Stop = Finished | Exceeded | ProbeRaised

  /** The loop from an interval on: its final limit, its last probe, the number of probes and how it ends. */
  datatype Search = Search(minimum: nat, last: Option<int>, probes: nat, stop: Stop)

  /** Raised once the lower bound is above the wanted maximum; a lower bound only grows. */
  predicate Exceeds(minimum: nat, wanted: Option<nat>) {
    wanted.Some? && minimum > wanted.value
  }

  function OneMore(s: Search): Search {
    s.(probes := s.probes + 1)
  }

  function Run(probe: int -> Verdict, wanted: Option<nat>, min: nat, max: nat, last: Option<int>): Search
    decreases max - min
  {
    if min >= max then Search(min, last, 0, Finished)
    else
      var current := (max + min) / 2;
      match probe(current)
      case Raises => Search(min, Some(current), 1, ProbeRaised)
      case Passes => OneMore(Run(probe, wanted, min, current, Some(current)))
      case Fails =>
        if Exceeds(current + 1, wanted) then Search(current + 1, Some(current), 1, Exceeded)
        else OneMore(Run(probe, wanted, current + 1, max, Some(current)))
  }

  /** The part of `make_state_test_fixture` that optimizes the gas limit. */
  function OutcomeOf(probe: int -> Verdict, limit: nat, wanted: Option<nat>): Outcome {
    match probe(limit - 1)
    case Raises => Raised
    case Fails => Impossible
    case Passes =>
      var s := Run(probe, wanted, 0, limit, None);
      match s.stop
      case Exceeded => TooMuch
      case ProbeRaised => Raised
      case Finished =>
        match probe(s.minimum)
        case Raises => Raised
        case Fails => AssertionError
        case Passes => if s.last.None? then UnboundLocal else Stored(s.last.value)
  }

  /** `probes` counts the probes of the loop. */
  method OptimizeGas(probe: int -> Verdict, limit: nat, wanted: Option<nat>) returns (r: Outcome, ghost probes: nat)
    ensures r == OutcomeOf(probe, limit, wanted)
    ensures probes <= Bits(limit)
    ensures OutcomeFits(probe, limit, wanted, r)
  {
    OutcomeAlwaysFits(probe, limit, wanted);
    ProbeBound(probe, wanted, 0, limit, None);
    probes := 0;
    var first := probe(limit - 1);
    if first == Raises {
      return Raised, 0;
    }
    if first == Fails {
      return Impossible, 0;
    }
    var minimum: nat, maximum: nat := 0, limit;
    var current: Option<int> := None;
    while minimum < maximum
      invariant minimum <= maximum
      invariant AddProbes(Run(probe, wanted, minimum, maximum, current), probes) == Run(probe, wanted, 0, limit, None)
      decreases maximum - minimum
    {
      var gas := (maximum + minimum) / 2;
      current := Some(gas);
      probes := probes + 1;
      var verdict := probe(gas);
      if verdict == Raises {
        return Raised, probes;
      } else if verdict == Passes {
        maximum := gas;
      } else {
        minimum := gas + 1;
        if wanted.Some? && minimum > wanted.value {
          return TooMuch, probes;
        }
      }
    }
    var verdict := probe(minimum);
    if verdict == Raises {
      return Raised, probes;
    }
    if verdict == Fails {
      return AssertionError, probes;
    }
    if current.None? {
      return UnboundLocal, probes;
    }
    return Stored(current.value), probes;
  }

  ghost function AddProbes(s: Search, n: nat): Search {
    s.(probes := s.probes + n)
  }

  // ---- How many probes ----

  /** Bits of a number: floor(log2(n)) + 1 for a positive one. */
  function Bits(n: nat): nat {
    if n == 0 then 0 else 1 + Bits(n / 2)
  }

  function Pow2(n: nat): nat {
    if n == 0 then 1 else 2 * Pow2(n - 1)
  }

  lemma {:induction false} BitsIsLog2(n: nat)
    requires n > 0
    ensures Bits(n) > 0 && Pow2(Bits(n) - 1) <= n < Pow2(Bits(n))
  {
    if n > 1 {
      BitsIsLog2(n / 2);
    }
  }

  lemma {:induction false} BitsMonotone(m: nat, n: nat)
    requires m <= n
    ensures Bits(m) <= Bits(n)
  {
    if m > 0 {
      BitsMonotone(m / 2, n / 2);
    }
  }

  /** What is left of an interval has a bit less. */
  lemma HalfBits(size: nat, left: nat)
    requires size > 0 && left <= size / 2
    ensures Bits(left) + 1 <= Bits(size)
  {
    BitsMonotone(left, size / 2);
  }

  /** At most one probe for each bit of the interval. */
  lemma {:induction false} ProbeBound(probe: int -> Verdict, wanted: Option<nat>, min: nat, max: nat, last: Option<int>)
    requires min <= max
    ensures Run(probe, wanted, min, max, last).probes <= Bits(max - min)
    decreases max - min
  {
    if min < max {
      var current := (max + min) / 2;
      HalfBits(max - min, current - min);
      HalfBits(max - min, max - (current + 1));
      if probe(current) == Passes {
        ProbeBound(probe, wanted, min, current, Some(current));
      } else if probe(current) == Fails {
        ProbeBound(probe, wanted, current + 1, max, Some(current));
      }
    }
  }

  // ---- What any probe gives ----

  /** Whatever the probe does, a limit that is found passed, or is the one the search began with. */
  lemma {:induction false} FoundPasses(probe: int -> Verdict, wanted: Option<nat>, min: nat, max: nat,
                                       last: Option<int>)
    requires min <= max
    ensures var s := Run(probe, wanted, min, max, last);
            s.stop == Finished ==> min <= s.minimum <= max && (s.minimum == max || probe(s.minimum) == Passes)
    decreases max - min
  {
    if min < max {
      var current := (max + min) / 2;
      if probe(current) == Passes {
        FoundPasses(probe, wanted, min, current, Some(current));
      } else if probe(current) == Fails {
        FoundPasses(probe, wanted, current + 1, max, Some(current));
      }
    }
  }

  /** The last probe is the limit found if it passed, and otherwise it failed one below it. */
  ghost predicate LastProbe(probe: int -> Verdict, last: Option<int>, minimum: nat) {
    && last.Some?
    && if probe(last.value) == Passes then last.value == minimum
       else probe(last.value) == Fails && last.value == minimum - 1
  }

  lemma {:induction false} LastProbeIsNear(probe: int -> Verdict, wanted: Option<nat>, min: nat, max: nat,
                                           last: Option<int>)
    requires min < max || (min == max && LastProbe(probe, last, min))
    ensures var s := Run(probe, wanted, min, max, last); s.stop == Finished ==> LastProbe(probe, s.last, s.minimum)
    decreases max - min
  {
    if min < max {
      var current := (max + min) / 2;
      if probe(current) == Passes {
        LastProbeIsNear(probe, wanted, min, current, Some(current));
      } else if probe(current) == Fails {
        LastProbeIsNear(probe, wanted, current + 1, max, Some(current));
      }
    }
  }

  lemma {:induction false} SomeProbeRaised(probe: int -> Verdict, wanted: Option<nat>, min: nat, max: nat,
                                           last: Option<int>)
    ensures Run(probe, wanted, min, max, last).stop == ProbeRaised ==> exists g :: min <= g < max && probe(g) == Raises
    decreases max - min
  {
    if min < max {
      var current := (max + min) / 2;
      if probe(current) == Passes {
        SomeProbeRaised(probe, wanted, min, current, Some(current));
      } else if probe(current) == Fails {
        SomeProbeRaised(probe, wanted, current + 1, max, Some(current));
      }
    }
  }

  /** Without any assumption on the probe: the limit asserted passed, or is the original one. */
  lemma SearchIsSound(probe: int -> Verdict, limit: nat, wanted: Option<nat>)
    requires limit > 0
    ensures var r, s := OutcomeOf(probe, limit, wanted), Run(probe, wanted, 0, limit, None);
            && (s.stop == Finished ==> s.minimum == limit || probe(s.minimum) == Passes)
            && (r.Stored? ==> probe(s.minimum) == Passes &&
                              r.gas == if probe(r.gas) == Passes then s.minimum else s.minimum - 1)
            && (r == AssertionError ==> s.minimum == limit)
            && (r == Raised ==> exists g :: 0 <= g <= limit && probe(g) == Raises)
            && r != UnboundLocal
  {
    FoundPasses(probe, wanted, 0, limit, None);
    LastProbeIsNear(probe, wanted, 0, limit, None);
    SomeProbeRaised(probe, wanted, 0, limit, None);
  }

  /** A limit that the search may come to and stop at, after a probe at it or just below it. */
  ghost predicate StoredFor(probe: int -> Verdict, limit: nat, wanted: Option<nat>, gas: int) {
    exists m: nat :: m <= limit && probe(m) == Passes && (gas == m || (gas == m - 1 && probe(gas) == Fails)) &&
                     0 <= gas < limit && (wanted.Some? && m > 0 ==> m <= wanted.value)
  }

  /**
   What each outcome says, whatever the probe does. The limit just below the original one is probed first: if it
   fails the search is refused, and only if it passes does the search come to anything else.
   */
  ghost predicate OutcomeFits(probe: int -> Verdict, limit: nat, wanted: Option<nat>, r: Outcome) {
    && (r == Impossible <==> probe(limit - 1) == Fails)
    && (r.Stored? || r == TooMuch || r == AssertionError || r == UnboundLocal ==> probe(limit - 1) == Passes)
    && (r.Stored? ==> StoredFor(probe, limit, wanted, r.gas))
    && (r == TooMuch ==> wanted.Some? && exists g: nat :: g < limit && g >= wanted.value && probe(g) == Fails)
    && (r == AssertionError ==> probe(limit) == Fails)
    && (r == UnboundLocal <==> limit == 0 && probe(-1) == Passes && probe(0) == Passes)
    && (r == Raised ==> exists g :: -1 <= g <= limit && probe(g) == Raises)
    && (probe(limit - 1) == Raises ==> r == Raised)
  }

  /** The search stays within its interval and below what is wanted, and says where it gave up. */
  lemma {:induction false} RunFits(probe: int -> Verdict, wanted: Option<nat>, min: nat, max: nat, last: Option<int>)
    requires min <= max && (min > 0 ==> !Exceeds(min, wanted))
    ensures var s := Run(probe, wanted, min, max, last);
            && (s.stop == Exceeded ==>
                  wanted.Some? && exists g: nat :: min <= g < max && g >= wanted.value && probe(g) == Fails)
            && (s.stop == Finished ==>
                  && (s.minimum > min ==> !Exceeds(s.minimum, wanted))
                  && (min < max ==> s.last.Some? && min <= s.last.value < max)
                  && (min == max ==> s.last == last && s.minimum == min))
    decreases max - min
  {
    if min < max {
      var current := (max + min) / 2;
      if probe(current) == Passes {
        RunFits(probe, wanted, min, current, Some(current));
      } else if probe(current) == Fails && !Exceeds(current + 1, wanted) {
        RunFits(probe, wanted, current + 1, max, Some(current));
      }
    }
  }

  lemma OutcomeAlwaysFits(probe: int -> Verdict, limit: nat, wanted: Option<nat>)
    ensures OutcomeFits(probe, limit, wanted, OutcomeOf(probe, limit, wanted))
  {
    RunFits(probe, wanted, 0, limit, None);
    var r, s := OutcomeOf(probe, limit, wanted), Run(probe, wanted, 0, limit, None);
    if limit > 0 {
      SearchIsSound(probe, limit, wanted);
      FoundPasses(probe, wanted, 0, limit, None);
      LastProbeIsNear(probe, wanted, 0, limit, None);
      if r.Stored? {
        assert probe(s.minimum) == Passes && s.last == Some(r.gas);
        assert s.minimum > 0 ==> !Exceeds(s.minimum, wanted);
      }
    }
  }

  // ---- What an upward closed probe gives ----

  /** The probe tells the limits below `m` from the others, and does not raise. */
  ghost predicate Parts(probe: int -> Verdict, min: nat, max: nat, m: nat) {
    forall g: int :: min <= g < max ==> probe(g) == if g < m then Fails else Passes
  }

  /** The search finds `m`, unless that is above the wanted maximum, and then it says so. */
  lemma {:induction false} FoundIsLeast(probe: int -> Verdict, wanted: Option<nat>, min: nat, max: nat,
                                        last: Option<int>, m: nat)
    requires min <= m <= max && Parts(probe, min, max, m) && !Exceeds(min, wanted)
    ensures var s := Run(probe, wanted, min, max, last);
            if Exceeds(m, wanted) then s.stop == Exceeded else s.stop == Finished && s.minimum == m
    decreases max - min
  {
    if min < max {
      var current := (max + min) / 2;
      if current >= m {
        FoundIsLeast(probe, wanted, min, current, Some(current), m);
      } else if !Exceeds(current + 1, wanted) {
        FoundIsLeast(probe, wanted, current + 1, max, Some(current), m);
      }
    }
  }

  /** Halving an interval that holds both, `m - 1` comes before `m`. The probe has no say in this. */
  predicate BelowFirst(min: nat, max: nat, m: nat)
    requires min < m < max
    decreases max - min
  {
    var current := (max + min) / 2;
    if current == m - 1 then true
    else if current == m then false
    else if current < m then BelowFirst(current + 1, max, m)
    else BelowFirst(min, current, m)
  }

  lemma {:induction false} LastOfPassing(probe: int -> Verdict, wanted: Option<nat>, min: nat, max: nat,
                                         last: Option<int>)
    requires min < max && forall g :: min <= g < max ==> probe(g) == Passes
    ensures Run(probe, wanted, min, max, last).last == Some(min)
    decreases max - min
  {
    var current := (max + min) / 2;
    if min < current {
      LastOfPassing(probe, wanted, min, current, Some(current));
    }
  }

  lemma {:induction false} LastOfFailing(probe: int -> Verdict, wanted: Option<nat>, min: nat, max: nat,
                                         last: Option<int>)
    requires min < max && !Exceeds(max, wanted) && forall g :: min <= g < max ==> probe(g) == Fails
    ensures Run(probe, wanted, min, max, last).last == Some(max - 1)
    decreases max - min
  {
    var current := (max + min) / 2;
    if current + 1 < max {
      LastOfFailing(probe, wanted, current + 1, max, Some(current));
    }
  }

  /** The last probe is the later of the two that the search must tell apart. */
  lemma {:induction false} LastProbeIs(probe: int -> Verdict, wanted: Option<nat>, min: nat, max: nat,
                                       last: Option<int>, m: nat)
    requires min < m < max && Parts(probe, min, max, m) && !Exceeds(m, wanted)
    ensures Run(probe, wanted, min, max, last).last == Some(if BelowFirst(min, max, m) then m else m - 1)
    decreases max - min
  {
    var current := (max + min) / 2;
    if current == m - 1 {
      LastOfPassing(probe, wanted, m, max, Some(current));
    } else if current == m {
      LastOfFailing(probe, wanted, min, m, Some(current));
    } else if current < m {
      LastProbeIs(probe, wanted, current + 1, max, Some(current), m);
    } else {
      LastProbeIs(probe, wanted, min, current, Some(current), m);
    }
  }

  /** The limit that is stored when `m` is the least that passes. */
  function StoredLimit(limit: nat, m: nat): int
    requires m < limit
  {
    if m == 0 || BelowFirst(0, limit, m) then m else m - 1
  }

  /** Passing at a limit means passing at every higher one, below the original limit; and nothing raises there. */
  ghost predicate UpwardClosed(probe: int -> Verdict, limit: nat) {
    && (forall g: int, h: int :: 0 <= g <= h < limit && probe(g) == Passes ==> probe(h) == Passes)
    && (forall g: int :: 0 <= g < limit ==> probe(g) != Raises)
  }

  lemma PartsAt(probe: int -> Verdict, limit: nat, m: nat)
    requires UpwardClosed(probe, limit) && m < limit
    requires probe(m) == Passes && forall g :: 0 <= g < m ==> probe(g) != Passes
    ensures Parts(probe, 0, limit, m)
  {}

  /**
   If the probe is upward closed: at most floor(log2(limit)) + 1 probes find the least passing limit `m`.
   It is refused exactly if it is above the wanted maximum. Otherwise what is stored is `m`, if `m` is zero
   or the search comes to `m - 1` before `m`, and else `m - 1`, which fails.
   */
  lemma SearchIsRight(probe: int -> Verdict, limit: nat, wanted: Option<nat>, m: nat)
    requires limit > 0 && UpwardClosed(probe, limit) && probe(limit - 1) == Passes
    requires m < limit && probe(m) == Passes && forall g :: 0 <= g < m ==> probe(g) != Passes
    ensures Run(probe, wanted, 0, limit, None).probes <= Bits(limit)
    ensures !Exceeds(m, wanted) ==> Run(probe, wanted, 0, limit, None).minimum == m
    ensures OutcomeOf(probe, limit, wanted) == if Exceeds(m, wanted) then TooMuch else Stored(StoredLimit(limit, m))
  {
    ProbeBound(probe, wanted, 0, limit, None);
    PartsAt(probe, limit, m);
    FoundIsLeast(probe, wanted, 0, limit, None, m);
    if m == 0 {
      LastOfPassing(probe, wanted, 0, limit, None);
    } else if !Exceeds(m, wanted) {
      LastProbeIs(probe, wanted, 0, limit, None, m);
    }
  }

  /** The stored limit can be one that fails: with limit 2 and 1 the least that passes, 0 is stored. */
  lemma StoredCanFail(probe: int -> Verdict)
    requires probe(0) == Fails && probe(1) == Passes
    ensures OutcomeOf(probe, 2, None) == Stored(0) && Run(probe, None, 0, 2, None).minimum == 1
  {
    assert Run(probe, None, 1, 1, Some(0)) == Search(1, Some(0), 0, Finished);
    assert Run(probe, None, 0, 1, Some(1)) == Search(1, Some(0), 1, Finished);
    assert Run(probe, None, 0, 2, None) == Search(1, Some(0), 2, Finished);
  }
}
