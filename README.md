# One hundred prisoners, verified model

A Dafny model of the program's simulation of the "100 prisoners" puzzle. There are N prisoners and N boxes, and each box holds one of the prisoners' numbers. Each prisoner searches for their own number with the loop strategy. The prisoner first opens the box with their own index. After that, they open the box whose index is the number just revealed. The search stops when the prisoner finds their number or when the probe budget runs out. A trial succeeds when every prisoner succeeds. The simulation counts the successful trials.

The box arrangement is treated as a map sigma with sigma(i) = `boxes[i]`. The model proves that the search from prisoner p walks the cycle of sigma through p. On a permutation, p succeeds exactly when that cycle has length at most `prisoners/2 + 1`.

That bound is one more than `prisoners/2`. The source initialises `opened_boxes` to 0 and does not count the first probe, so a prisoner can open `prisoners/2 + 1` boxes in all. The model follows the code. The header comment of `src/main.rs` says each prisoner opens half of the boxes, and that a loop of length 51 or more dooms the prisoners. Both statements disagree with the code. `Scenarios.HundredPrisonersLongestCycle` proves the code's behaviour for 100 prisoners: a 51-cycle together with a 49-cycle is survived, and a 52-cycle together with a 48-cycle is not.

Files:

- `cycles.dfy` (module `Cycles`): iterates of sigma, cycle length, and the pigeonhole argument that a cycle on a permutation always closes.
- `prisoners.dfy` (module `Prisoners`): `loop_strategy`, the per-prisoner `while` loop, `apply_strategy`, and the trial tally of `simulate_prisoner_dilemma`.
- `scenarios.dfy` (module `Scenarios`): arrangements made of two rotation cycles, and the exact survival condition for them.

Box arrangements are immutable `seq<nat>` values. The source never writes to the vector after the shuffle, so the model proves "the permutation is not mutated" by construction. Rust's `usize` and `u32` values become `nat`. No overflow is possible: every counter is bounded by `prisoners` or by the number of trials. Integer division `prisoners / 2` is on non-negative numbers, so Dafny's `/` matches Rust's.

## Model

| member | source | states |
|---|---|---|
| `Prisoners.LoopStrategy` | src/main.rs:73-78 | With no previous probe the result is `boxes[prisoner]`; with `Some(previous)` it is `boxes[previous]`. When every value is a valid index, the result is a valid index for the next probe. |
| `Prisoners.LoopStrategyFollowsCycle` | src/main.rs:73-78 | The first probe reveals sigma(p). A probe fed sigma^k(p) reveals sigma^(k+1)(p). |
| `Cycles.Iter` | src/main.rs:56-61 | Every iterate sigma^k(p) is a valid box index, so every `boxes[...]` the search performs is in bounds. |
| `Prisoners.SearchBoxes` | src/main.rs:55-63 | The loop runs at most `prisoners/2` times after the first probe. `found` holds iff sigma^j(p) == p for some 1 <= j <= `prisoners/2 + 1`. On success, `opened_boxes + 1` is the first return to p, and on failure `opened_boxes == prisoners/2`. On a permutation, `found` holds iff the cycle through p has length at most `prisoners/2 + 1`, and on success that length is `opened_boxes + 1`. |
| `Cycles.CycleLength` | src/main.rs:58-61 | On a permutation, the cycle through p has a length c with 1 <= c <= N. sigma^c(p) == p, and no smaller positive j returns to p. |
| `Cycles.ReturnExists` | src/main.rs:35-36 | On a permutation of 0..N-1, the walk from p returns to p within N steps. |
| `Cycles.ReturnsWithinIffCycleLength` | src/main.rs:58-63 | Returning to p within m steps is equivalent to the cycle through p having length at most m. |
| `Cycles.EveryValueOccurs` | src/main.rs:35-36 | An in-range, injective arrangement contains every number 0..N-1, so each number occurs exactly once. |
| `Prisoners.SuccessCount` | src/main.rs:53-66 | The count of successful prisoners among the first k is at most k. It equals k iff every one of them succeeds. |
| `Prisoners.TrialSucceedsIffShortCycles` | src/main.rs:53-69 | On a permutation, a trial succeeds iff every prisoner's cycle has length at most `prisoners/2 + 1`. |
| `Prisoners.ApplyStrategy` | src/main.rs:47-70 | Returns true iff the success count equals `prisoners`. That is the same as every prisoner in 0..prisoners-1 succeeding, so a single failure makes it false. On a permutation, it is the same as every cycle having length at most `prisoners/2 + 1`. With 0 prisoners it is vacuously true. |
| `Prisoners.IdentityTrialSucceeds` | src/main.rs:56-69 | In the unshuffled arrangement every cycle has length 1, every prisoner succeeds on the first probe, and the trial succeeds. |
| `Prisoners.AtMostTwoPrisonersAlwaysSucceed` | src/main.rs:55-69 | With at most two prisoners, every permutation is a successful trial. |
| `Prisoners.SuccessfulTrials` | src/main.rs:33-43 | The number of successful trials is at most the number of trials. It equals that number iff every trial succeeds, and it is 0 iff none does. |
| `Prisoners.SuccessfulTrialsAppend` | src/main.rs:33-43 | The tally over two batches of trials is the sum of the two tallies. |
| `Prisoners.SimulatePrisonerDilemma` | src/main.rs:27-43 | Running `apply_strategy` on each given arrangement and counting successes gives `SuccessfulTrials`, which is at most the number of trials. |
| `Scenarios.BlockCycleLength` | src/main.rs:58-61 | A prisoner inside a rotation block [lo, hi) lies on a cycle of length hi - lo. |
| `Scenarios.TwoCyclesTrial` | src/main.rs:53-69 | An arrangement made of a c-cycle and an (N-c)-cycle succeeds iff both lengths are at most N/2 + 1. |
| `Scenarios.HundredPrisonersLongestCycle` | src/main.rs:18-19 | With 100 prisoners, a 51-cycle plus a 49-cycle succeeds and a 52-cycle plus a 48-cycle fails. The header comment's claim that 51 dooms everyone does not hold for the code. |
| `Scenarios.SingleCycleTrial` | src/main.rs:55-69 | One cycle through all N boxes is survived iff N <= 2. |

## Left out

- The shuffle `boxes.shuffle(&mut thread_rng())` (src/main.rs:35-36) uses a library random-number generator. The model takes the arrangements as input instead, and requires each one to be a permutation of 0..prisoners-1.
- `_naive_strategy` (src/main.rs:81-83) depends entirely on `thread_rng().gen_range`. The main program never uses it.
- The strategy is not a parameter. `apply_strategy` and `simulate_prisoner_dilemma` take a strategy function, but the model fixes it to the loop strategy, which is the one `main` passes. All the cycle results hold only for the loop strategy.
- The `f32` division that turns the count into a success rate (src/main.rs:43) is floating point, and it gives NaN when `iterations == 0`. The model stops at the integer count of successful trials.
- The `clap` argument struct, `main`, and the `println!` reporting (src/main.rs:85-115) are argument parsing and I/O.
- Statistical claims are probabilistic and cannot be stated in this model. Examples are the limit of the success rate as N grows, or the naive strategy almost always failing.
- `Prisoners.ApplyStrategy` requires `prisoners <= |boxes|` and every value to be a valid index. This rules out the inputs on which Rust would panic on an index out of bounds, but it is stronger than necessary. Every arrangement the simulation builds meets it.
