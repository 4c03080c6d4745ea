# Cyclic meal-list extender

A Dafny model of `extend_meals` from the meal planner (`src/main.rs`), the
function that stretches a short list of meals into a longer plan, together
with the `Meal` record it copies.

`extend_meals(meals, destination_size)` clones the list, computes
`whole = destination_size / len` and `remainder = destination_size % len`,
runs `for _ in 1..whole` appending a copy of the first `len` elements each
time, and finally appends the first `remainder` elements. The model proves
what that amounts to:

- element `i` of the result is meal `i % len`, so the output is the input
  repeated cyclically (`[1, 2, 3, 1, 2, 3, ...]` in the commented
  expectation next to the demonstration call);
- the input stays in front, in order;
- the result has exactly `destination_size` elements when the destination
  holds at least one whole copy, but `len + destination_size` elements when
  it is shorter: nothing is truncated, because the clone is kept and the
  loop simply does not run;
- an empty list panics, because both `/` and `%` divide by its length;
- when `destination_size >= len`, input position `j` is copied
  `destination_size / len` times, plus once more when
  `j < destination_size % len`; when `destination_size < len`, it is copied
  once, plus once more when `j < destination_size`.

Modules:

- `Modular` (`modular.dfy`): facts about division by a positive length.
  These are the quotient/remainder uniqueness and the residue being
  unchanged by whole copies.
- `Extender` (`extender.dfy`): the extender, generic in the element type
  because it never inspects a meal. It contains these parts:
  - `ExtendFromWithin` for `Vec::extend_from_within`;
  - `AppendCopies` for the loop, one iteration per recursive step;
  - `Extend` for the whole function;
  - `Cycle`, an independent reference definition;
  - `ExtendLoop`, an imperative method that mirrors the loop, with its invariant.
- `Multiplicity` (`multiplicity.dfy`): occurrence counts. The extender is
  run on the position list `[0, ..., len - 1]`, so the count of `j` there
  is the number of copies taken from input position `j`.
- `MealPlanner` (`meal_planner.dfy`): the `Meal` record (`tolerance_days`
  as an 8-bit unsigned value) and `ExtendMeals`. `ExtendMeals` returns
  either the extended list or the division-by-zero panic.

## Model

| member | source | states |
|---|---|---|
| MealPlanner.ExtendMeals | src/main.rs:16-30 | panics (division by zero) exactly when the meal list is empty; otherwise the result has `destination_size` elements when the destination is at least the list length, and the list length plus `destination_size` elements when it is shorter. The input comes first, unchanged, and element `i` is meal `i % len` |
| Extender.Extend | src/main.rs:16-30 | for a non-empty input: the length is `destination` or `len + destination` (no truncation below `len`). The input is kept as the prefix, and every element is the input element at index `i % len` |
| Extender.ExtendFromWithin | src/main.rs:24-27 | `Vec::extend_from_within(lo..hi)`: the list grows by `hi - lo` elements, keeps its old contents in front and ends with a copy of `v[lo..hi]`. Its `requires lo <= hi <= |v|` leaves out the source's out-of-range panic; both call sites in `extend_meals` meet it (`0..original_len`, and `0..remainder` with `remainder < len`) |
| Extender.AppendCopies | src/main.rs:23-25 | running the loop body `count` times adds exactly `count * len` elements. It leaves the existing list untouched, and each added element repeats the first `len` elements in order |
| Extender.AppendCopiesSnoc | src/main.rs:23-25 | each further pass of the loop appends one more copy of the original first `len` elements at the end. The copied range never changes, because the loop only ever appends |
| Extender.LengthAfterLoop | src/main.rs:18-27 | the clone, `whole - 1` loop copies (none when `whole` is 0, since `1..0` and `1..1` are empty ranges) and the remainder add up to `destination`, or to `len + destination` when `destination < len` |
| Extender.ExtendIsCycle | src/main.rs:17-27 | the extender equals the reference cycle `xs[i % len]` truncated to the extended length, on every non-empty input and destination |
| Extender.ExtendLoop | src/main.rs:16-30 | the imperative loop, run with the same whole/remainder split, builds exactly the list `Extend` describes. That list has the extended length and is the cyclic repetition of the input |
| Extender.ExtendToOwnLength | src/main.rs:20-27 | extending to exactly the input's length returns the input (one whole copy, remainder 0) |
| Extender.ShortDestinationKeepsInput | src/main.rs:17-27 | a destination shorter than the input yields the whole input followed by its first `destination` elements |
| Extender.DemonstrationPattern | src/main.rs:10-12 | the commented expectation holds: `[1, 2, 3]` extended to 16 is `1, 2, 3` five times followed by `1` |
| Multiplicity.PositionMultiplicity | src/main.rs:20-27 | input position `j` occurs `destination / len` times, plus once when `j < destination % len`, if the destination is at least `len`. It occurs once, plus once when `j < destination`, if the destination is shorter |
| Multiplicity.CopiesFollowPositions | src/main.rs:17-27 | element `i` of any extended list is the input element at position `Extend(Positions(len), d)[i]`. So the occurrence counts of positions are the numbers of copies taken from each input position |
| Multiplicity.ResidueCountClosedForm | src/main.rs:20-21 | among the first `n` indices, residue `j` occurs `n / len` times, plus once when `j < n % len`. This is how the quotient and remainder split a destination |

## Left out

- `main` (src/main.rs:7-14): demonstration plumbing. Its `println!` is I/O, and its `sort_by` on `tolerance_days` is a standard-library sort. The extender does not depend on the input order.
- `generate_meals` (src/main.rs:32-58): fixed sample data with no logic.
- MealPlanner.ExtendMeals: does not model the capacity-overflow panic of a `Vec` longer than the address space. Lengths and `destination_size` are unbounded naturals instead of `usize`.
- Allocation and capacity details of `Vec::extend_from_within`: modelled as appending a slice of the current contents.
- Input not modified: `meals` is taken by shared reference and only the clone grows. In the model the input is an immutable sequence value, so this holds by construction and needs no separate statement.
- `tolerance_days` is never read by `extend_meals`, so the model carries it in `Meal` without using it. A destination shorter than the list is not an error and yields `len + destination` elements.
