/**
 The state of one animal and the deterministic rules that update it:
 gaining weight, aging, yearly weight loss, the weight a mother loses at
 birth, fitness, and grazing.

 Every rule is a pure function from the old state to the new one. Fitness is
 NOT recomputed automatically: only `CalculateFitness` and a successful
 `LoseWeightBirth` write it, so after the other rules it is stale, exactly as
 in the source.
 */
module Animals {
  import opened Species

  /**
   The exponential function is a parameter `exp` of the fitness rules, known
   only to be positive; the source calls the floating-point `exp` and nothing
   else about it is assumed.
   */
  ghost predicate Positive(exp: real -> real)
  {
    forall x :: exp(x) > 0.0
  }

  /** Weight, age (in years) and last computed fitness of one animal. */
  datatype Animal = Animal(weight: real, age: nat, fitness: real)

  /** `1 / (1 + e)`, the logistic shape both fitness factors take. */
  function Logistic(e: real): (r: real)
    requires e > 0.0
    ensures 0.0 < r < 1.0
  {
    1.0 / (1.0 + e)
  }

  /** Fitness factor that falls as the animal grows older than `aHalf`. */
  function AgeFactor(p: Params, exp: real -> real, age: nat): (r: real)
    requires Positive(exp)
    ensures 0.0 < r < 1.0
  {
    Logistic(exp(p.phiAge * (age as real - p.aHalf)))
  }

  /** Fitness factor that rises as the animal grows heavier than `wHalf`. */
  function WeightFactor(p: Params, exp: real -> real, weight: real): (r: real)
    requires Positive(exp)
    ensures 0.0 < r < 1.0
  {
    Logistic(exp(-p.phiWeight * (weight - p.wHalf)))
  }

  /**
   Fitness of an animal of the given weight and age: zero for a weight that is
   not positive, otherwise the product of the two logistic factors, which lies
   strictly between 0 and 1 and below each factor.
   */
  function Fitness(p: Params, exp: real -> real, weight: real, age: nat): (r: real)
    requires Positive(exp)
    ensures weight <= 0.0 ==> r == 0.0
    ensures weight > 0.0 ==> 0.0 < r < 1.0
    ensures weight > 0.0 ==> r == AgeFactor(p, exp, age) * WeightFactor(p, exp, weight)
    ensures weight > 0.0 ==> r < AgeFactor(p, exp, age) && r < WeightFactor(p, exp, weight)
  {
    if weight <= 0.0 then 0.0
    else
      var qPos := AgeFactor(p, exp, age);
      var qNeg := WeightFactor(p, exp, weight);
      ProductBelowFactors(qPos, qNeg);
      qPos * qNeg
  }

  lemma ProductBelowFactors(a: real, b: real)
    requires 0.0 < a < 1.0 && 0.0 < b < 1.0
    ensures 0.0 < a * b < a && a * b < b
  {
  }

  /** Writes the fitness of the animal's current weight and age; nothing else changes. */
  function CalculateFitness(p: Params, exp: real -> real, a: Animal): (r: Animal)
    requires Positive(exp)
    ensures r.weight == a.weight && r.age == a.age
    ensures r.fitness == Fitness(p, exp, a.weight, a.age)
    ensures 0.0 <= r.fitness < 1.0
  {
    a.(fitness := Fitness(p, exp, a.weight, a.age))
  }

  /** Adds `food` whole units to the weight; age and (stale) fitness are kept. */
  function GainWeight(a: Animal, food: U16): (r: Animal)
    ensures r.weight - a.weight == food as real
    ensures r.age == a.age && r.fitness == a.fitness
  {
    a.(weight := a.weight + food as real)
  }

  /** One year older; weight and fitness are kept. */
  function Aging(a: Animal): (r: Animal)
    ensures r.age == a.age + 1
    ensures r.weight == a.weight && r.fitness == a.fitness
  {
    a.(age := a.age + 1)
  }

  /**
   The yearly metabolic loss: the fraction `eta` of the weight is lost. A
   positive weight stays positive and strictly decreases; fitness is not
   recomputed.
   */
  function LoseWeightYear(p: Params, a: Animal): (r: Animal)
    requires Valid(p)
    ensures r.weight == a.weight * (1.0 - p.eta)
    ensures a.weight > 0.0 ==> 0.0 < r.weight < a.weight
    ensures a.weight <= 0.0 ==> a.weight <= r.weight <= 0.0
    ensures r.age == a.age && r.fitness == a.fitness
  {
    a.(weight := a.weight - p.eta * a.weight)
  }

  /**
   The weight a mother loses when a baby of weight `baby` is born. If her
   weight exceeds `xi * baby` she loses exactly that much, her fitness is
   recomputed and the birth succeeds; otherwise nothing changes and the
   birth fails.
   */
  function LoseWeightBirth(p: Params, exp: real -> real, a: Animal, baby: real): (r: (Animal, bool))
    requires Positive(exp)
    ensures r.1 <==> a.weight > p.xi * baby
    ensures !r.1 ==> r.0 == a
    ensures r.1 ==> r.0.weight == a.weight - p.xi * baby && r.0.weight > 0.0
    ensures r.1 ==> r.0.age == a.age && r.0.fitness == Fitness(p, exp, r.0.weight, r.0.age)
    ensures r.1 ==> 0.0 < r.0.fitness < 1.0
  {
    if a.weight > p.xi * baby then
      (CalculateFitness(p, exp, a.(weight := a.weight - p.xi * baby)), true)
    else
      (a, false)
  }

  /**
   A herbivore grazes on the fodder available to it: it eats the fodder up
   to its capacity `f`, gains exactly that weight and reports the amount so
   the caller can debit the fodder pool.
   */
  function Graze(p: Params, a: Animal, available: U16): (r: (Animal, U16))
    ensures r.1 <= p.f && r.1 <= available
    ensures r.1 == p.f || r.1 == available
    ensures r.0.weight == a.weight + r.1 as real
    ensures r.0.age == a.age && r.0.fitness == a.fitness
  {
    if available >= p.f then (GainWeight(a, p.f), p.f)
    else (GainWeight(a, available), available)
  }

  /** `exp` never decreases: the property of the real exponential the monotonicity lemmas use. */
  ghost predicate NonDecreasing(exp: real -> real)
  {
    forall x, y :: x <= y ==> exp(x) <= exp(y)
  }

  lemma LogisticAntitone(e1: real, e2: real)
    requires 0.0 < e1 <= e2
    ensures Logistic(e2) <= Logistic(e1)
  {
    assert 1.0 + e1 <= 1.0 + e2;
    assert 1.0 / (1.0 + e2) <= 1.0 / (1.0 + e1) by {
      DivisionAntitone(1.0 + e1, 1.0 + e2);
    }
  }

  lemma DivisionAntitone(x: real, y: real)
    requires 0.0 < x <= y
    ensures 1.0 / y <= 1.0 / x
  {
    assert (1.0 / y) * x <= (1.0 / y) * y;
  }

  /** Under a non-decreasing exponential, `Logistic(exp(x))` does not rise with `x`. */
  lemma LogisticOfExpAntitone(exp: real -> real, x: real, y: real)
    requires Positive(exp) && NonDecreasing(exp) && x <= y
    ensures Logistic(exp(y)) <= Logistic(exp(x))
  {
    assert exp(x) <= exp(y);
    LogisticAntitone(exp(x), exp(y));
  }

  /** Under a non-decreasing exponential the weight factor does not fall as weight grows. */
  lemma WeightFactorMonotone(p: Params, exp: real -> real, w1: real, w2: real)
    requires Valid(p) && Positive(exp) && NonDecreasing(exp)
    requires w1 <= w2
    ensures WeightFactor(p, exp, w1) <= WeightFactor(p, exp, w2)
  {
    NegScaleAntitone(p.phiWeight, w1, w2, p.wHalf);
    LogisticOfExpAntitone(exp, -p.phiWeight * (w2 - p.wHalf), -p.phiWeight * (w1 - p.wHalf));
  }

  /** Under a non-decreasing exponential the age factor does not rise with age. */
  lemma AgeFactorAntitone(p: Params, exp: real -> real, age1: nat, age2: nat)
    requires Valid(p) && Positive(exp) && NonDecreasing(exp)
    requires age1 <= age2
    ensures AgeFactor(p, exp, age2) <= AgeFactor(p, exp, age1)
  {
    ScaleMonotone(p.phiAge, age1 as real - p.aHalf, age2 as real - p.aHalf);
    LogisticOfExpAntitone(exp, p.phiAge * (age1 as real - p.aHalf), p.phiAge * (age2 as real - p.aHalf));
  }

  lemma NegScaleAntitone(k: real, a: real, b: real, c: real)
    requires 0.0 < k && a <= b
    ensures -k * (b - c) <= -k * (a - c)
  {
  }

  lemma ScaleMonotone(k: real, a: real, b: real)
    requires 0.0 < k && a <= b
    ensures k * a <= k * b && a * k <= b * k
  {
  }

  /**
   For a non-decreasing exponential, a heavier animal of the same age is at
   least as fit.
   */
  lemma FitnessMonotoneInWeight(p: Params, exp: real -> real, age: nat, w1: real, w2: real)
    requires Valid(p) && Positive(exp) && NonDecreasing(exp)
    requires w1 <= w2
    ensures Fitness(p, exp, w1, age) <= Fitness(p, exp, w2, age)
  {
    if w1 > 0.0 {
      var q := AgeFactor(p, exp, age);
      var v1 := WeightFactor(p, exp, w1);
      var v2 := WeightFactor(p, exp, w2);
      assert v1 <= v2 by {
        WeightFactorMonotone(p, exp, w1, w2);
      }
      ProductMonotone(q, v1, v2, Fitness(p, exp, w1, age), Fitness(p, exp, w2, age));
    }
  }

  /**
   For a non-decreasing exponential, an older animal of the same weight is at
   most as fit.
   */
  lemma FitnessAntitoneInAge(p: Params, exp: real -> real, weight: real, age1: nat, age2: nat)
    requires Valid(p) && Positive(exp) && NonDecreasing(exp)
    requires age1 <= age2
    ensures Fitness(p, exp, weight, age2) <= Fitness(p, exp, weight, age1)
  {
    if weight > 0.0 {
      var v := WeightFactor(p, exp, weight);
      var q1 := AgeFactor(p, exp, age1);
      var q2 := AgeFactor(p, exp, age2);
      assert q2 <= q1 by {
        AgeFactorAntitone(p, exp, age1, age2);
      }
      assert q2 * v == v * q2 && q1 * v == v * q1;
      ProductMonotone(v, q2, q1, Fitness(p, exp, weight, age2), Fitness(p, exp, weight, age1));
    }
  }

  lemma ProductMonotone(k: real, a: real, b: real, x: real, y: real)
    requires 0.0 < k && a <= b
    requires x == k * a && y == k * b
    ensures x <= y
  {
    ScaleMonotone(k, a, b);
  }
}
