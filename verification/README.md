# Ice tower control daemon: hysteresis model

This project models the decision core of the IceTower daemon. The daemon polls
the CPU temperature of a single-board computer once per tick. It keeps the most
recent `W` readings in a bounded FIFO window (`deque(maxlen=W)`) and switches a
cooling tower on or off through a GPIO pin.

The decision is a two-state machine:

- When the tower is **off**, it is switched on if the percentage of readings
  strictly above the temperature limit is strictly greater than the percentage
  limit.
- When the tower is **on**, it is switched off if the percentage of readings
  strictly below the limit is strictly greater than the percentage limit.
- Otherwise nothing happens.

The model follows the code as written in three places:

- There is no full-window guard, so the decision runs from the first tick.
- The divisor of the percentage is the number of readings in the window, not
  `W`.
- The tower starts off.

Modules:

- `Outcomes` (`outcomes.dfy`): the failures that end the process (an uncaught
  exception, or argparse rejecting an argument and exiting), as a `Fault`, and
  the `Result` and `Option` datatypes.
- `Percentage` (`percentage.dfy`): `count_percentage`, with exact `real`
  arithmetic. It is defined identically in `tower.py:27-29` and
  `tower_utils.py:34-36`, and modelled once.
- `MeasurementWindow` (`window.dfy`): the bounded deque and its `append`.
- `Pins` (`pins.dfy`): `AVAILABLE_GPIO_PINS` and the argparse `choices` check on
  the pin.
- `Controller` (`controller.dfy`): the decision, one loop tick, and the endless
  loop as a fold over a finite sequence of readings.

The error paths are modelled, not excluded by preconditions:

- A window of size 0 stays empty, so `count_percentage` divides by zero on the
  first tick (`ZeroDivisionError`).
- A negative window size makes `deque` raise `ValueError` before the loop
  starts.
- A negative delay makes `time.sleep` raise `ValueError` on the first tick.
- A pin outside 2..27 makes argparse reject the pin and exit.

## Model

| member | source | states |
|---|---|---|
| `Percentage.Filter` | tower_utils.py:35 | The filtered list is no longer than the input, every element in it satisfies the comparator and comes from the input, and every input element that satisfies the comparator is in it |
| `Percentage.FilterAppend` | tower_utils.py:35 | Filtering a concatenation is filtering each part and concatenating the results, so the kept elements keep their input order |
| `Percentage.CountPercentage` | tower_utils.py:34-36 | Fails with ZeroDivisionError exactly on an empty sequence; otherwise the result lies in [0, 100] and, multiplied by the length, equals 100 times the number of matching elements |
| `Percentage.PercentageExceedsIff` | tower.py:27-29 | On a non-empty sequence the percentage exceeds a limit `p` exactly when `matching * 100 > p * length`, so the decision can be stated without division |
| `Percentage.CountAllIff` | tower_utils.py:35 | The number of matches equals the length exactly when every element satisfies the comparator |
| `Percentage.CountNoneIff` | tower_utils.py:35 | The number of matches is zero exactly when no element satisfies the comparator |
| `Percentage.CountAppend` | tower_utils.py:35 | Counting over a concatenation adds the counts of the two parts |
| `Percentage.CountDisjoint` | tower_utils.py:35 | Two comparators that never hold together have match counts that sum to at most the length |
| `Percentage.CountComplement` | tower_utils.py:35 | A comparator and its negation have match counts that sum to exactly the length |
| `Percentage.CountMonotone` | tower_utils.py:35 | If comparator `a` implies `b` on every element, `a` matches at most as many elements as `b` |
| `Percentage.PercentageAllIff` | tower_utils.py:34-36 | On a non-empty sequence the percentage is 100 exactly when every element matches |
| `Percentage.PercentageNoneIff` | tower_utils.py:34-36 | On a non-empty sequence the percentage is 0 exactly when no element matches |
| `Percentage.PercentageDisjoint` | tower_utils.py:34-36 | The percentages of two disjoint comparators, such as `x > t` and `x < t`, sum to at most 100 |
| `Percentage.PercentageComplement` | tower_utils.py:34-36 | The percentages of a comparator and its negation sum to exactly 100 |
| `Percentage.PercentageMonotone` | tower_utils.py:34-36 | If `a` implies `b` on every element, the percentage for `a` is at most the percentage for `b` |
| `MeasurementWindow.Append` | tower.py:70 | Appending keeps the window within its capacity and leaves exactly the last `min(len + 1, W)` elements of old contents plus the new reading; nothing is dropped while there is room, and the new reading is the newest element |
| `MeasurementWindow.AppendAllKeepsMostRecent` | tower.py:66-70 | After a sequence of appends, the window holds the last `W` elements (or all, if fewer) of its old contents followed by the appended readings, in order |
| `MeasurementWindow.FillFromEmpty` | tower.py:66-70 | After `n` appends to an empty window of capacity `W`, its length is `min(n, W)` and it holds the last `min(n, W)` readings in insertion order |
| `Pins.Range` | tower.py:20 | `range(lo, hi)` has `hi - lo` elements (none if `hi <= lo`), element `i` is `lo + i`, and it contains exactly the integers in `[lo, hi)` |
| `Pins.CheckPin` | tower.py:37-40 | A pin is accepted exactly when it is between 2 and 27 inclusive; any other pin is an invalid choice |
| `Pins.AvailablePinsAreTwoToTwentySeven` | tower_utils.py:9 | There are 26 available pins, strictly increasing from 2 to 27 |
| `Controller.Decide` | tower.py:72-83 | An empty window is a ZeroDivisionError. An off tower is never switched off, and is switched on exactly when readings strictly above the limit exceed the percentage limit, measured against the current window length. An on tower is never switched on, and is switched off exactly when readings strictly below the limit exceed the percentage limit |
| `Controller.Tick` | tower.py:67-83 | A tick fails exactly when the delay is negative (ValueError) or the window has capacity 0 (ZeroDivisionError). Otherwise the window gains the reading and keeps its last `W` readings. An off tower is switched on exactly when the readings strictly above the limit in that new window exceed the percentage limit, and is otherwise left alone. An on tower is switched off exactly when the readings strictly below the limit exceed it |
| `Controller.Run` | tower.py:64-83 | A run takes one action per reading and keeps the configured window capacity |
| `Controller.RunFromSnoc` | tower.py:67-83 | Running the loop over one more reading gives the same result, failure included, as running over the earlier readings and then one more tick from the state they left |
| `Controller.RunLastTick` | tower.py:67-83 | In a successful run, the last tick's action is the decision on the last `W` readings of the whole run (all of them while fewer than `W` have been read), from the tower state the earlier readings left. The run's actions are the earlier run's actions followed by that one, and the tower ends in the state that action leaves |
| `Controller.NoWindowIsBothHotAndCold` | tower.py:72-83 | With a percentage limit of at least 50, no window has both an above-limit share and a below-limit share exceeding the percentage limit |
| `Controller.DecideIsIdempotent` | tower.py:72-83 | Hysteresis: with a percentage limit of at least 50, deciding again on the same window right after a decision takes no action |
| `Controller.ChatterBelowHalf` | tower.py:72-83 | The bound of 50 is needed: with a percentage limit of 40, the window [50, 30] and limit 40 switch an off tower on and an on tower off |
| `Controller.BoundaryDoesNotSwitch` | tower.py:75-81 | A share exactly equal to the percentage limit switches neither way, because the comparison is strict |
| `Controller.EightOfTenAtEightyDoesNotSwitch` | tower.py:73-81 | Eight readings above the limit and two equal to it, with percentage limit 80, leave an off tower off and an on tower on: readings equal to the limit count in neither direction |
| `Controller.AllAboveSwitchesOn` | tower.py:72-77 | A non-empty window whose readings are all strictly above the limit switches an off tower on whenever the percentage limit is below 100 |
| `Controller.AllBelowSwitchesOff` | tower.py:78-83 | A non-empty window whose readings are all strictly below the limit switches an on tower off whenever the percentage limit is below 100 |
| `Controller.RunFailsIff` | tower.py:66-74 | A run fails exactly when the window size is negative (ValueError), or when there is at least one reading and either the delay is negative (ValueError) or the window size is 0 (ZeroDivisionError) |
| `Controller.RunKeepsRecentReadings` | tower.py:66-70 | After a successful run over `n` readings, the window holds `min(n, W)` readings: the most recent ones, in insertion order |
| `Controller.RunSwitchesAlternately` | tower.py:72-83 | Replaying a run's actions from the initial off state never switches on a tower that is on or off a tower that is off, and ends in the run's final state |
| `Controller.FirstReadingDecides` | tower.py:70-77 | There is no full-window guard: for any window size of at least 1, a single first reading above the limit switches the tower on when the percentage limit is below 100 |

## Left out

- Floating point: `count_percentage` computes `len / len * 100` in IEEE-754 doubles. The model uses exact reals. Rounding can put a float result on the other side of an exact boundary. Example: `-w 100 -p 7` with a full window of which 7 readings are above the limit. In doubles `7 / 100 * 100` is `7.000000000000001`, which is greater than 7, so the code switches the tower on. `Controller.BoundaryDoesNotSwitch` says the exact share of 7 leaves the tower off. NaN readings are not modelled.
- Controller.RunFailsIff: the "exactly" holds only for the model's unbounded `int`s and finite `real`s. Two failures of the code are missing. First, a window size of `2**63` or more makes `deque` raise OverflowError, and a delay too large for the C sleep call makes `time.sleep` raise OverflowError (or OSError). The model treats every non-negative window size and delay as valid. Second, argparse's `float` accepts `nan`, `inf` and `-inf` for the limits, and the model's `real`s have no such values. With a NaN percentage limit both comparisons are false, so the code never switches the tower. With a NaN temperature limit no reading counts in either direction.
- Sensor: `current_cpu_temperature` (psutil) is I/O. Readings are an input sequence, and a failing sensor is not modelled.
- GPIO device: `gpiozero.OutputDevice` and the `IceTower` wrapper are a hardware driver. The tower is a `bool`, and `on()`/`off()` are the `TurnOn`/`TurnOff` actions. Device creation (`tower.py:65`) and its failures are not modelled, and `Config.pin` is not used by `Controller.Run`.
- Timing: `time.sleep` is not modelled beyond the ValueError a negative delay raises.
- Loop: the endless `while True` loop is a fold over a finite sequence of readings.
- Argument parsing: argparse is not modelled beyond the pin's `choices` check. Types and defaults of the other options are not modelled.
- Logging: all logging is output only.
- toggle.py: the toggle utility, its signal handlers and its global `TOWER` are not modelled. They are an unconditional periodic toggle plus asynchronous OS signals, with no decision logic.
