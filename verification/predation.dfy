/**
 A carnivore's yearly hunt over an ordered list of herbivores.

 The prey are visited in list order. Each visit draws one number from the
 random source; the prey is struck when the draw falls below a kill
 probability that grows with the fitness gap between predator and prey.
 A struck prey is eaten whole (its weight truncated to whole units) while the
 predator still has room; the prey that would fill the predator up is eaten
 only in part, the predator gains exactly the room left, and the hunt stops
 there. Every struck prey, the partly eaten one included, is then removed
 from the list.

 Two details of the source are kept on purpose. The partly eaten prey is
 still removed. And the count the hunt returns does not include the room
 filled by the final partial meal, so on a saturating hunt it is less than
 the weight the predator gained.

 The random source is the sequence `draws`: prey `i` is decided by
 `draws[i]`, and the outcome reports how many draws the hunt consumed.
 */
module Hunting {
  import opened Species
  import opened Animals
  import opened Removal

  /**
   Chance that a predator of fitness `predator` kills a prey of fitness
   `prey`: none unless the predator is fitter, certain once the gap reaches
   `deltaPhiMax`, and proportional to the gap in between.
   */
  function KillProbability(p: Params, predator: real, prey: real): (r: real)
    requires Valid(p)
    ensures 0.0 <= r <= 1.0
    ensures r == 0.0 <==> predator <= prey
    ensures r == 1.0 <==> predator - prey >= p.deltaPhiMax as real
    ensures 0.0 < predator - prey < p.deltaPhiMax as real ==>
              r * p.deltaPhiMax as real == predator - prey
  {
    var deltaPhiMax := p.deltaPhiMax as real;
    var difference := predator - prey;
    if predator <= prey then 0.0
    else if 0.0 < difference && difference < deltaPhiMax then difference / deltaPhiMax
    else 1.0
  }

  /** A fitter predator never has a smaller chance against the same prey. */
  lemma KillProbabilityMonotone(p: Params, predator1: real, predator2: real, prey: real)
    requires Valid(p)
    requires predator1 <= predator2
    ensures KillProbability(p, predator1, prey) <= KillProbability(p, predator2, prey)
  {
    var d := p.deltaPhiMax as real;
    if prey < predator1 && predator2 - prey < d {
      DivideMonotone(predator1 - prey, predator2 - prey, d);
    }
  }

  lemma DivideMonotone(a: real, b: real, d: real)
    requires a <= b && 0.0 < d
    ensures a / d <= b / d
  {
    assert b / d - a / d == (b - a) / d;
  }

  /**
   With the carnivore's `deltaPhiMax` of 10 and fitness values in [0, 1],
   the gap never reaches 10, so no kill is ever more likely than 1/10.
   */
  lemma CarnivoreKillProbabilityAtMostTenth(predator: real, prey: real)
    requires 0.0 <= predator <= 1.0 && 0.0 <= prey <= 1.0
    ensures KillProbability(CarnivoreParams, predator, prey) <= 0.1
  {
    if prey < predator {
      assert (predator - prey) / 10.0 <= 1.0 / 10.0;
    }
  }

  /** Draws come from a uniform source on [0, 1). */
  predicate UnitDraws(draws: seq<real>)
  {
    forall i :: 0 <= i < |draws| ==> 0.0 <= draws[i] < 1.0
  }

  // ---------------------------------------------------------------------------
  // The hunt as the source performs it.
  // ---------------------------------------------------------------------------

  /** State after the loop over the prey: predator, killed indices, count, draws used. */
  datatype Hunt = Hunt(predator: Animal, marks: seq<nat>, eaten: U16, used: nat)

  /**
   The loop over the prey from index `i` on, with `eaten` counted so far and
   `marks` the indices struck so far. The count stays below the capacity `f`,
   so `f - eaten` never underflows and `eaten + w` never overflows a `u16`;
   the predator gains no more than the room `f - eaten` left at the start.
   */
  function HuntFrom(p: Params, predator: Animal, prey: seq<Animal>, draws: seq<real>,
                    i: nat, eaten: U16, marks: seq<nat>): (h: Hunt)
    requires Valid(p) && |prey| <= |draws| && i <= |prey|
    requires eaten < p.f
    requires StrictlyIncreasing(marks) && forall k :: 0 <= k < |marks| ==> marks[k] < i
    ensures eaten <= h.eaten < p.f
    ensures predator.weight + (h.eaten - eaten) as real <= h.predator.weight
    ensures h.predator.weight <= predator.weight + (p.f - eaten) as real
    ensures h.predator.age == predator.age && h.predator.fitness == predator.fitness
    ensures StrictlyIncreasing(h.marks) && MarksIn(h.marks, prey)
    ensures |marks| <= |h.marks| && h.marks[..|marks|] == marks
    ensures i <= h.used <= |prey|
    decreases |prey| - i
  {
    if i == |prey| then Hunt(predator, marks, eaten, i)
    else if draws[i] < KillProbability(p, predator.fitness, prey[i].fitness) then
      var marks' := marks + [i];
      var rest: U16 := p.f - eaten;
      var weight := TruncU16(prey[i].weight);
      if weight < rest then
        HuntFrom(p, GainWeight(predator, weight), prey, draws, i + 1, eaten + weight, marks')
      else
        Hunt(GainWeight(predator, rest), marks', eaten, i + 1)
    else
      HuntFrom(p, predator, prey, draws, i + 1, eaten, marks)
  }

  /** Result of one predation call. */
  datatype Outcome = Outcome(predator: Animal, survivors: seq<Animal>, eaten: U16, used: nat)

  /**
   One hunt: the loop over the prey, then removal of every struck prey from
   the highest index to the lowest. The count returned is below the capacity
   `f`, the predator gains at least that count and at most `f`, and only its
   weight changes.
   */
  function Predation(p: Params, predator: Animal, prey: seq<Animal>, draws: seq<real>): (o: Outcome)
    requires Valid(p) && |prey| <= |draws|
    ensures o.eaten < p.f
    ensures predator.weight + o.eaten as real <= o.predator.weight <= predator.weight + p.f as real
    ensures o.predator.age == predator.age && o.predator.fitness == predator.fitness
    ensures |o.survivors| <= |prey| && o.used <= |prey|
  {
    var h := HuntFrom(p, predator, prey, draws, 0, 0, []);
    Outcome(h.predator, RemoveMarked(prey, h.marks), h.eaten, h.used)
  }

  // ---------------------------------------------------------------------------
  // The hunt described declaratively, prey by prey.
  // ---------------------------------------------------------------------------

  /** Prey `i` is struck when its draw falls below its kill probability. */
  predicate Struck(p: Params, phi: real, prey: seq<Animal>, draws: seq<real>, i: nat)
    requires Valid(p) && i < |prey| <= |draws|
  {
    draws[i] < KillProbability(p, phi, prey[i].fitness)
  }

  /** Total truncated weight of the struck prey before index `j`. */
  function IntakeBefore(p: Params, phi: real, prey: seq<Animal>, draws: seq<real>, j: nat): nat
    requires Valid(p) && j <= |prey| <= |draws|
  {
    if j == 0 then 0
    else
      IntakeBefore(p, phi, prey, draws, j - 1)
      + (if Struck(p, phi, prey, draws, j - 1) then TruncU16(prey[j - 1].weight) else 0)
  }

  /** Prey `j` is struck and, eaten whole, would reach the capacity. */
  predicate Saturates(p: Params, phi: real, prey: seq<Animal>, draws: seq<real>, j: nat)
    requires Valid(p) && j < |prey| <= |draws|
  {
    Struck(p, phi, prey, draws, j)
    && IntakeBefore(p, phi, prey, draws, j) + TruncU16(prey[j].weight) >= p.f
  }

  /** The first saturating prey at or after `from`, or `|prey|` if there is none. */
  function FirstSaturation(p: Params, phi: real, prey: seq<Animal>, draws: seq<real>, from: nat): (k: nat)
    requires Valid(p) && from <= |prey| <= |draws|
    ensures from <= k <= |prey|
    ensures k < |prey| ==> Saturates(p, phi, prey, draws, k)
    ensures forall j :: from <= j < k ==> !Saturates(p, phi, prey, draws, j)
    decreases |prey| - from
  {
    if from == |prey| then from
    else if Saturates(p, phi, prey, draws, from) then from
    else FirstSaturation(p, phi, prey, draws, from + 1)
  }

  /** The prey a hunt kills: the struck ones up to and including the first saturating one. */
  function Killed(p: Params, phi: real, prey: seq<Animal>, draws: seq<real>): set<nat>
    requires Valid(p) && |prey| <= |draws|
  {
    var stop := FirstSaturation(p, phi, prey, draws, 0);
    set i: nat | i < |prey| && i <= stop && Struck(p, phi, prey, draws, i)
  }

  // ---------------------------------------------------------------------------
  // The two descriptions agree.
  // ---------------------------------------------------------------------------

  /** The loop's outcome matches the declarative description from `from` on. */
  ghost predicate HuntMatches(p: Params, start: Animal, prey: seq<Animal>, draws: seq<real>,
                              from: nat, h: Hunt)
    requires Valid(p) && from <= |prey| <= |draws|
  {
    var stop := FirstSaturation(p, start.fitness, prey, draws, from);
    && h.eaten as int == IntakeBefore(p, start.fitness, prey, draws, stop)
    && (forall j :: 0 <= j < |prey| ==>
          (j in h.marks <==> j <= stop && Struck(p, start.fitness, prey, draws, j)))
    && (stop < |prey| ==> h.predator.weight == start.weight + p.f as real && h.used == stop + 1)
    && (stop == |prey| ==> h.predator.weight == start.weight + h.eaten as real && h.used == |prey|)
  }

  /** Passing a prey that does not saturate leaves the first saturation where it was. */
  lemma MatchesStep(p: Params, start: Animal, prey: seq<Animal>, draws: seq<real>, i: nat, h: Hunt)
    requires Valid(p) && i < |prey| <= |draws|
    requires !Saturates(p, start.fitness, prey, draws, i)
    requires HuntMatches(p, start, prey, draws, i + 1, h)
    ensures HuntMatches(p, start, prey, draws, i, h)
  {
    assert FirstSaturation(p, start.fitness, prey, draws, i)
        == FirstSaturation(p, start.fitness, prey, draws, i + 1);
  }

  /** Marking a struck prey `i` keeps the marks increasing and exactly the struck prey before `i + 1`. */
  lemma MarkStep(p: Params, phi: real, prey: seq<Animal>, draws: seq<real>, i: nat, marks: seq<nat>)
    requires Valid(p) && i < |prey| <= |draws|
    requires StrictlyIncreasing(marks) && forall k :: 0 <= k < |marks| ==> marks[k] < i
    requires forall j :: 0 <= j < i ==> (j in marks <==> Struck(p, phi, prey, draws, j))
    requires Struck(p, phi, prey, draws, i)
    ensures StrictlyIncreasing(marks + [i])
    ensures forall k :: 0 <= k < |marks + [i]| ==> (marks + [i])[k] < i + 1
    ensures forall j :: 0 <= j < i + 1 ==> (j in marks + [i] <==> Struck(p, phi, prey, draws, j))
    ensures IntakeBefore(p, phi, prey, draws, i + 1)
         == IntakeBefore(p, phi, prey, draws, i) + TruncU16(prey[i].weight)
  {
  }

  /** The loop from index `i` on, started in a state that matches the declarative description. */
  lemma {:induction false} HuntFromMeetsSpec(p: Params, start: Animal, predator: Animal,
                                              prey: seq<Animal>, draws: seq<real>,
                                              i: nat, eaten: U16, marks: seq<nat>)
    requires Valid(p) && |prey| <= |draws| && i <= |prey|
    requires eaten < p.f
    requires StrictlyIncreasing(marks) && forall k :: 0 <= k < |marks| ==> marks[k] < i
    requires predator.age == start.age && predator.fitness == start.fitness
    requires predator.weight == start.weight + eaten as real
    requires eaten as int == IntakeBefore(p, start.fitness, prey, draws, i)
    requires forall j :: 0 <= j < i ==> (j in marks <==> Struck(p, start.fitness, prey, draws, j))
    ensures HuntMatches(p, start, prey, draws, i, HuntFrom(p, predator, prey, draws, i, eaten, marks))
    decreases |prey| - i, 1
  {
    if i == |prey| {
      assert HuntFrom(p, predator, prey, draws, i, eaten, marks) == Hunt(predator, marks, eaten, i);
      assert FirstSaturation(p, start.fitness, prey, draws, i) == i;
    } else if !Struck(p, start.fitness, prey, draws, i) {
      MissStepMatches(p, start, predator, prey, draws, i, eaten, marks);
    } else if TruncU16(prey[i].weight) < p.f - eaten {
      EatStepMatches(p, start, predator, prey, draws, i, eaten, marks);
    } else {
      SaturatingStepMatches(p, start, predator, prey, draws, i, eaten, marks);
    }
  }

  /** A prey that is not struck is passed over, and the rest of the loop matches. */
  lemma {:induction false} MissStepMatches(p: Params, start: Animal, predator: Animal,
                                            prey: seq<Animal>, draws: seq<real>,
                                            i: nat, eaten: U16, marks: seq<nat>)
    requires Valid(p) && |prey| <= |draws| && i < |prey|
    requires eaten < p.f
    requires StrictlyIncreasing(marks) && forall k :: 0 <= k < |marks| ==> marks[k] < i
    requires predator.age == start.age && predator.fitness == start.fitness
    requires predator.weight == start.weight + eaten as real
    requires eaten as int == IntakeBefore(p, start.fitness, prey, draws, i)
    requires forall j :: 0 <= j < i ==> (j in marks <==> Struck(p, start.fitness, prey, draws, j))
    requires !Struck(p, start.fitness, prey, draws, i)
    ensures HuntMatches(p, start, prey, draws, i, HuntFrom(p, predator, prey, draws, i, eaten, marks))
    decreases |prey| - i, 0
  {
    var h := HuntFrom(p, predator, prey, draws, i, eaten, marks);
    assert IntakeBefore(p, start.fitness, prey, draws, i + 1) == eaten as int;
    assert h == HuntFrom(p, predator, prey, draws, i + 1, eaten, marks);
    HuntFromMeetsSpec(p, start, predator, prey, draws, i + 1, eaten, marks);
    MatchesStep(p, start, prey, draws, i, h);
  }

  /** A struck prey that fits in the room left is eaten whole, and the rest of the loop matches. */
  lemma {:induction false} EatStepMatches(p: Params, start: Animal, predator: Animal,
                                           prey: seq<Animal>, draws: seq<real>,
                                           i: nat, eaten: U16, marks: seq<nat>)
    requires Valid(p) && |prey| <= |draws| && i < |prey|
    requires eaten < p.f
    requires StrictlyIncreasing(marks) && forall k :: 0 <= k < |marks| ==> marks[k] < i
    requires predator.age == start.age && predator.fitness == start.fitness
    requires predator.weight == start.weight + eaten as real
    requires eaten as int == IntakeBefore(p, start.fitness, prey, draws, i)
    requires forall j :: 0 <= j < i ==> (j in marks <==> Struck(p, start.fitness, prey, draws, j))
    requires Struck(p, start.fitness, prey, draws, i)
    requires TruncU16(prey[i].weight) < p.f - eaten
    ensures HuntMatches(p, start, prey, draws, i, HuntFrom(p, predator, prey, draws, i, eaten, marks))
    decreases |prey| - i, 0
  {
    var weight := TruncU16(prey[i].weight);
    var h := HuntFrom(p, predator, prey, draws, i, eaten, marks);
    var fed := GainWeight(predator, weight);
    var marks' := marks + [i];
    MarkStep(p, start.fitness, prey, draws, i, marks);
    assert fed.weight == start.weight + (eaten + weight) as real;
    assert h == HuntFrom(p, fed, prey, draws, i + 1, eaten + weight, marks');
    HuntFromMeetsSpec(p, start, fed, prey, draws, i + 1, eaten + weight, marks');
    MatchesStep(p, start, prey, draws, i, h);
  }

  /** The prey that saturates the predator ends the loop, and the outcome matches. */
  lemma SaturatingStepMatches(p: Params, start: Animal, predator: Animal,
                              prey: seq<Animal>, draws: seq<real>,
                              i: nat, eaten: U16, marks: seq<nat>)
    requires Valid(p) && |prey| <= |draws| && i < |prey|
    requires eaten < p.f
    requires StrictlyIncreasing(marks) && forall k :: 0 <= k < |marks| ==> marks[k] < i
    requires predator.age == start.age && predator.fitness == start.fitness
    requires predator.weight == start.weight + eaten as real
    requires eaten as int == IntakeBefore(p, start.fitness, prey, draws, i)
    requires forall j :: 0 <= j < i ==> (j in marks <==> Struck(p, start.fitness, prey, draws, j))
    requires Struck(p, start.fitness, prey, draws, i)
    requires TruncU16(prey[i].weight) >= p.f - eaten
    ensures HuntMatches(p, start, prey, draws, i, HuntFrom(p, predator, prey, draws, i, eaten, marks))
  {
    var phi := start.fitness;
    var marks' := marks + [i];
    var h := HuntFrom(p, predator, prey, draws, i, eaten, marks);
    assert h == Hunt(GainWeight(predator, p.f - eaten), marks', eaten, i + 1);
    assert Saturates(p, phi, prey, draws, i);
    assert FirstSaturation(p, phi, prey, draws, i) == i;
    forall j | 0 <= j < |prey|
      ensures j in marks' <==> j <= i && Struck(p, phi, prey, draws, j)
    {
      if j in marks {
        var k :| 0 <= k < |marks| && marks[k] == j;
      }
    }
  }

  /**
   Predation removes exactly the killed prey: the survivors are the original
   list without the struck prey up to the first saturating one, in their
   original order.
   */
  lemma PredationKillsExactly(p: Params, predator: Animal, prey: seq<Animal>, draws: seq<real>)
    requires Valid(p) && |prey| <= |draws|
    ensures var o := Predation(p, predator, prey, draws);
            o.survivors == Survivors(prey, Killed(p, predator.fitness, prey, draws))
  {
    var phi := predator.fitness;
    var h := HuntFrom(p, predator, prey, draws, 0, 0, []);
    HuntFromMeetsSpec(p, predator, predator, prey, draws, 0, 0, []);
    RemoveMarkedIsSurvivors(prey, h.marks, Killed(p, phi, prey, draws));
  }

  /**
   The count predation returns is the truncated weight of the prey eaten
   whole, which leaves out the final partial meal. A saturating hunt gains the
   predator exactly `f`, kills the saturating prey although it is only partly
   eaten, and uses one draw per prey up to the saturating one. A
   hunt that never saturates gains exactly the count and uses a draw for every
   prey.
   */
  lemma PredationIntake(p: Params, predator: Animal, prey: seq<Animal>, draws: seq<real>)
    requires Valid(p) && |prey| <= |draws|
    ensures var o := Predation(p, predator, prey, draws);
            var phi := predator.fitness;
            var stop := FirstSaturation(p, phi, prey, draws, 0);
            && o.eaten as int == IntakeBefore(p, phi, prey, draws, stop)
            && (stop < |prey| ==> stop in Killed(p, phi, prey, draws))
            && (stop < |prey| ==> o.predator.weight == predator.weight + p.f as real && o.used == stop + 1)
            && (stop == |prey| ==> o.predator.weight == predator.weight + o.eaten as real && o.used == |prey|)
  {
    HuntFromMeetsSpec(p, predator, predator, prey, draws, 0, 0, []);
  }

  /** With no prey struck the hunt changes nothing and returns 0. */
  lemma PredationNoStrike(p: Params, predator: Animal, prey: seq<Animal>, draws: seq<real>)
    requires Valid(p) && |prey| <= |draws|
    requires forall i :: 0 <= i < |prey| ==> !Struck(p, predator.fitness, prey, draws, i)
    ensures var o := Predation(p, predator, prey, draws);
            o.survivors == prey && o.eaten == 0 && o.predator == predator && o.used == |prey|
  {
    var phi := predator.fitness;
    NoStrikeNoIntake(p, phi, prey, draws, |prey|);
    var stop := FirstSaturation(p, phi, prey, draws, 0);
    assert stop == |prey|;
    assert Killed(p, phi, prey, draws) == {};
    PredationKillsExactly(p, predator, prey, draws);
    PredationIntake(p, predator, prey, draws);
    SurvivorsNoneDead(prey, {}, 0);
  }

  lemma {:induction false} NoStrikeNoIntake(p: Params, phi: real, prey: seq<Animal>, draws: seq<real>, j: nat)
    requires Valid(p) && j <= |prey| <= |draws|
    requires forall i :: 0 <= i < j ==> !Struck(p, phi, prey, draws, i)
    ensures IntakeBefore(p, phi, prey, draws, j) == 0
  {
    if j > 0 {
      NoStrikeNoIntake(p, phi, prey, draws, j - 1);
    }
  }

  /**
   A predator no fitter than any of the prey kills nothing: the list is
   unchanged, the predator is unchanged and the hunt returns 0.
   */
  lemma PredationWeakPredator(p: Params, predator: Animal, prey: seq<Animal>, draws: seq<real>)
    requires Valid(p) && |prey| <= |draws| && UnitDraws(draws)
    requires forall i :: 0 <= i < |prey| ==> predator.fitness <= prey[i].fitness
    ensures var o := Predation(p, predator, prey, draws);
            o.survivors == prey && o.eaten == 0 && o.predator == predator
  {
    PredationNoStrike(p, predator, prey, draws);
  }

  /**
   A carnivore of fitness 1 against prey of weights 30, 50 and 40 and fitness
   0, with every draw 0: it eats the first prey whole (30), fills its
   remaining room of 40 from the second and stops. Both are removed, the
   third survives, the predator gains 70, and the hunt returns 30.
   */
  lemma CarnivoreSaturatingHunt()
    ensures var predator := Animal(8.0, 3, 1.0);
            var prey := [Animal(30.0, 1, 0.0), Animal(50.0, 1, 0.0), Animal(40.0, 1, 0.0)];
            var o := Predation(CarnivoreParams, predator, prey, [0.0, 0.0, 0.0]);
            && o.eaten == 30
            && o.predator == Animal(78.0, 3, 1.0)
            && o.survivors == [Animal(40.0, 1, 0.0)]
            && o.used == 2
  {
    var predator := Animal(8.0, 3, 1.0);
    var prey := [Animal(30.0, 1, 0.0), Animal(50.0, 1, 0.0), Animal(40.0, 1, 0.0)];
    var draws := [0.0, 0.0, 0.0];
    var p := CarnivoreParams;
    CarnivoreTableValid();
    assert KillProbability(p, 1.0, 0.0) == 0.1;
    assert TruncU16(30.0) == 30 && TruncU16(50.0) == 50;
    var h1 := HuntFrom(p, predator.(weight := 38.0), prey, draws, 1, 30, [0]);
    assert h1 == Hunt(Animal(78.0, 3, 1.0), [0, 1], 30, 2);
    assert HuntFrom(p, predator, prey, draws, 0, 0, []) == h1;
    assert RemoveMarked(prey, [0, 1]) == [prey[2]];
  }
}
