# Animal bookkeeping of the rcosystem predator–prey simulation

This project models the per-animal rules of a discrete-time ecosystem
simulation with herbivores (prey) and carnivores (predators). Each animal has a
weight, an age and a fitness. The rules cover gaining weight, aging, the yearly
metabolic weight loss, the weight a mother loses when she gives birth, fitness
as a product of two logistic factors, a herbivore grazing on the fodder
available to it, and a carnivore hunting an ordered list of herbivores.

In the source, herbivores and carnivores are two structures that share their
common rules and differ in their constant tables and in one feeding operation
each: only `Herbivore` has `graze` (src/animals.rs:89-97) and only `Carnivore`
has `predation` (src/animals.rs:179-217). Here they are one `Animal` record and
one `Params` record, and `Species.HerbivoreParams` and
`Species.CarnivoreParams` are the two literal tables. `Graze` and `Predation`
are written against `Params`, so they are meant to be applied to the herbivore
table and the carnivore table respectively.

Modules:

- `Species` (`species.dfy`): the constant tables, the `u16` range, and the
  truncating `as u16` cast of a weight.
- `Animals` (`animals.dfy`): the animal record, fitness, and the weight, age and
  grazing rules.
- `Removal` (`removal.dfy`): deleting the killed prey by index, from the highest
  index to the lowest, plus the reference "survivors in order" definition it is
  proved equal to.
- `Hunting` (`predation.dfy`): the kill probability, the hunt loop as the
  source runs it, a declarative description of which prey die and what the
  predator eats, and the proofs that the two agree.

Randomness is an input. Each call to the uniform generator becomes the next
element of a `seq<real>` of draws: prey `i` is decided by `draws[i]`. The hunt
reports how many draws it used, so a caller can pass the rest on. The
exponential function is a parameter `exp: real -> real` that is known only to
be positive. The monotonicity lemmas about fitness also assume `exp` is
non-decreasing, and they say so in their `requires`.

Two consequences of `src/animals.rs` are worth stating outright:

- On a saturating hunt, `predation` returns the intake before the final,
  partial meal (src/animals.rs:207-209, 216), not the total weight gained.
  With prey weighing 30, 50 and 40, a capacity of 70, and every prey struck,
  it returns 30 while the predator gains 70
  (`Hunting.CarnivoreSaturatingHunt`).
- With `DELTA_PHI_MAX` = 10 and fitness in [0, 1], no kill is certain: a kill
  is at most 1/10 likely (`Hunting.CarnivoreKillProbabilityAtMostTenth`). So
  the example above strikes every prey by drawing 0.

## Model

| member | source | states |
|---|---|---|
| Species.HerbivoreTableValid | src/animals.rs:18-36 | the herbivore table has a loss rate in (0,1), positive fitness slopes and birth cost, a nonzero `u16` capacity and a nonzero `u8` fitness gap; its derived `PROCREATE` weight ZETA·(W_BIRTH + SIGMA_BIRTH) is 3.08 |
| Species.CarnivoreTableValid | src/animals.rs:108-126 | the carnivore table has the same shape; its derived `PROCREATE` weight is 24.5 |
| Species.TruncU16 | src/animals.rs:202 | `weight as u16` rounds toward zero inside the `u16` range, gives 0 for weights below 1 (negatives included) and saturates at 65535 |
| Animals.Fitness | src/animals.rs:73-87 | fitness is 0 for a non-positive weight; otherwise it is the product of the age and weight logistic factors, lies strictly in (0,1), and is below each factor |
| Animals.CalculateFitness | src/animals.rs:163-177 | only the fitness field changes; it becomes the fitness of the current weight and age and lies in [0,1) |
| Animals.FitnessMonotoneInWeight | src/animals.rs:81-83 | for a non-decreasing exp, a heavier animal of the same age is at least as fit (non-positive weights included) |
| Animals.FitnessAntitoneInAge | src/animals.rs:77-79 | for a non-decreasing exp, an older animal of the same weight is at most as fit |
| Animals.GainWeight | src/animals.rs:51-53 | the weight grows by exactly the food eaten; age and fitness are untouched |
| Animals.Aging | src/animals.rs:55-57 | age grows by exactly one; weight and fitness are untouched |
| Animals.LoseWeightYear | src/animals.rs:59-61 | the weight becomes weight·(1 − eta); a positive weight stays positive and strictly falls; age and the stale fitness are untouched |
| Animals.LoseWeightBirth | src/animals.rs:63-71 | succeeds iff weight > xi·baby; on failure the animal is exactly unchanged; on success the weight falls by exactly xi·baby and stays positive, age is kept, and fitness is recomputed to a value in (0,1) |
| Animals.Graze | src/animals.rs:89-97 | the amount eaten is min(available, F): at most both, and equal to one of them; the weight grows by exactly that amount; age and fitness are untouched |
| Removal.RemoveMarked | src/animals.rs:213-215 | removing strictly increasing, in-range indices from the last to the first shortens the list by exactly the number of indices |
| Removal.RemoveMarkedIsSurvivors | src/animals.rs:213-215 | the reverse-order removal leaves exactly the unmarked elements, in their original relative order |
| Hunting.KillProbability | src/animals.rs:189-196 | the kill probability lies in [0,1]; it is 0 iff the predator is no fitter; it is 1 iff the fitness gap reaches DELTA_PHI_MAX; in between it is gap/DELTA_PHI_MAX |
| Hunting.KillProbabilityMonotone | src/animals.rs:189-196 | a fitter predator never has a smaller kill probability against the same prey |
| Hunting.CarnivoreKillProbabilityAtMostTenth | src/animals.rs:181-196 | with the carnivore's DELTA_PHI_MAX of 10 and fitness values in [0,1], the kill probability is at most 1/10 |
| Hunting.HuntFrom | src/animals.rs:184-212 | the loop keeps `eaten` strictly below F, so `F - eaten` never underflows; the predator gains at least the added count and at most the room left; the marked indices stay strictly increasing and in range, and extend the marks made so far; the draws used never exceed the list length |
| Hunting.Predation | src/animals.rs:179-217 | the returned count is below F; the predator gains at least that count and at most F; only its weight changes; the list never grows |
| Hunting.FirstSaturation | src/animals.rs:201-210 | finds the first prey that is struck while eating it whole would reach the capacity, or reports that none exists |
| Hunting.HuntFromMeetsSpec | src/animals.rs:184-212 | from any index, the loop's count, marks, predator weight and draws used match the prey-by-prey description |
| Hunting.PredationKillsExactly | src/animals.rs:179-217 | the surviving prey are the original list minus exactly the struck prey up to the first saturating one, in their original order |
| Hunting.PredationIntake | src/animals.rs:199-216 | the returned count is the truncated weight of the prey eaten whole and leaves out the final partial meal; a saturating hunt kills the saturating prey although it is only partly eaten, gains exactly F, and uses one draw per prey up to the saturating one; otherwise the gain equals the count and every prey uses a draw |
| Hunting.PredationNoStrike | src/animals.rs:198-216 | if no draw falls below its kill probability, the list and the predator are unchanged, the count is 0, and one draw is used per prey |
| Hunting.PredationWeakPredator | src/animals.rs:190-191 | a predator no fitter than every prey kills nothing; the list and the predator are unchanged and the count is 0 |
| Hunting.CarnivoreSaturatingHunt | src/animals.rs:201-216 | against prey weighing 30, 50 and 40 that are all struck, the carnivore eats 30, fills its last 40 from the second prey, and stops; the first two prey are removed, the predator gains 70, and the call returns 30 |

## Left out

- `birthweight` of both species (src/animals.rs:38-49, 128-139) is not modelled. It samples a log-normal distribution from an external library and uses floating-point `ln`, `sqrt` and `powf`.
- The random generator is not modelled. Its uniform draws are the `draws` sequence, and predation requires at least one draw per prey because the generator never runs dry.
- IEEE `f32` rounding is not modelled. Weights, fitness and the constants are exact reals.
- `exp` is a parameter known only to be positive. Fitness being non-decreasing in weight and non-increasing in age is proved only under an explicit assumption that `exp` is non-decreasing.
- A NaN weight in the `as u16` cast cannot arise, because weights are reals.
- `u32` overflow of the age in `aging` is not modelled. The age is a natural number.
- The unused `Species` enum (src/animals.rs:5-8) is not modelled.
- The constants `MU`, `BETA`, `GAMMA`, `OMEGA` and `STRIDE` are kept as fields of `Params`, and `PROCREATE` as the derived `Species.Procreate`, but no rule of this core reads them.
- Fitness staleness is not enforced. As in the source, only `CalculateFitness` and a successful `LoseWeightBirth` write fitness. Predation uses whatever fitness the animals carry.
