# obsnake: the falling square and its callback registry

The repository is an Obsidian plugin whose only file, `main.js`, registers a
view called "Tetris". Opening the view creates a canvas and a closure over two
variables `x` and `y`. A timer of the plugin calls that closure 30 times a
second. Each call moves a 10-pixel white square one cell down the canvas. When
the square reaches the bottom it returns to the top one column to the right,
and the column wraps around the canvas width. Every opened view pushes its own
closure onto a module-level list, `updateCalbacks`. `TetrisPlugin.update` calls
every entry of that list in order. Closing a view removes nothing.

The project proves properties of that stepper and of that registry.

- `stepper.dfy` (module `Stepper`) holds the pure part. `JsRem` is JavaScript's
  truncating `%`. `StepFn` is one call of the closure. `StepN` is repeated
  calls. The lemmas cover the reachable-state invariant and a closed form for
  the position after `n` ticks.
- `registry.dfy` (module `Registry`) models the callback list as a sequence of
  `Session` values. It defines opening a view (`Opened`), one timer tick
  (`Ticked`), and the registry after any history of host events (`Run`). It
  also gives an independent reference definition, `Expected`, and proves the
  two agree.
- `plugin.dfy` (module `Plugin`) is the imperative form. `UpdateCallback` is
  the object `onOpen` pushes, with the captured `x`, `y` as fields and the
  canvas size as constants. `TetrisPlugin` owns the list, with `OnOpen`,
  `OnClose` and a looping `Update`. Each method is tied to the functions of
  `Registry` and to a ghost history of events.

`onClose` (main.js:124-125) is empty, so a closed view's callback stays
registered and is stepped on every tick; the model reproduces that.

## Model

| member | source | states |
|---|---|---|
| Stepper.JsRem | main.js:111 | JavaScript's `%` with a positive divisor: the result is strictly between `-b` and `b`, takes the sign of the dividend, and differs from it by a multiple of `b`. For a non-negative dividend it equals the Euclidean remainder. |
| Stepper.StepFn | main.js:104-111 | One `execute`. If `y + 10 < height - 10`, then `y` becomes `y + 10` and an `x` already in `[0, width)` is kept. Otherwise `y` becomes 0 and `x` becomes `(x + 10) mod width`. A non-negative `x` lands in `[0, width)`. The new `y` is 0 or below `height - 10`. It stays a multiple of 10 and non-negative. |
| Stepper.StepNKeepsInv | main.js:100-111 | From any state with `0 <= x < width`, `y` a non-negative multiple of 10, and `y` either 0 or below `height - 10`, any number of steps keeps all of these. |
| Stepper.ReachableFromOrigin | main.js:100-111 | Every position reachable from the initial `(0, 0)` satisfies the invariant above, for every `height`, including `height <= 10`. |
| Stepper.RowsPerColumn | main.js:104-108 | The number `m` of rows the square visits per column: at least 1, `10 * m >= height - 10`, and `10 * (m - 1) < height - 10` when `m > 1`. This characterises `m` uniquely. |
| Stepper.FallWithinColumn | main.js:104-107 | Starting at the top of a column on the canvas, for `r < m` steps the square only falls: after `r` steps it is at `(x, 10 * r)`. |
| Stepper.FullColumn | main.js:104-111 | Exactly `m` steps from the top of column `x` bring the square to the top of column `(x + 10) mod width`. |
| Stepper.ClosedForm | main.js:100-111 | After `n` steps from the origin the square is at `((10 * (n / m)) mod width, 10 * (n mod m))`. |
| Registry.Opened | main.js:97-102 | Opening a view appends exactly one entry, at `(0, 0)` with that view's canvas size, and leaves every earlier entry as it was. |
| Registry.Ticked | main.js:40-43 | A timer tick keeps the registry's length and replaces each entry by that entry stepped once. Each new entry depends on the old entry at the same index only. |
| Registry.RunIsExpected | main.js:40-125 | After any history of opens, ticks and closes, the registry holds one entry per open, in opening order. Each entry has its own canvas size and sits where the stepper is after as many steps as there were ticks after its open. |
| Registry.RunLength | main.js:100-125 | The registry's length is the number of views ever opened. Closing never removes an entry. |
| Registry.RunOnlyGrows | main.js:100-125 | The registry after a prefix of a history is no longer than after the whole history. The entry at each earlier index keeps its canvas size, and its position is its earlier position stepped once per tick in the rest of the history. |
| Registry.RunKeepsInv | main.js:100-111 | After any history, every registered entry satisfies the stepper invariant of `StepNKeepsInv`. |
| Plugin.UpdateCallback.constructor | main.js:97-100 | A new callback has `x = y = 0` and the canvas size it was given. `width` and `height` are constants and never reassigned. |
| Plugin.UpdateCallback.Execute | main.js:103-111 | The captured `(x, y)` becomes `StepFn` of its old value. Only this callback changes. |
| Plugin.TetrisPlugin.constructor | main.js:3 | The callback list starts empty. |
| Plugin.TetrisPlugin.OnOpen | main.js:93-122 | Appends one fresh callback at `(0, 0)` with the given canvas size. The abstract registry becomes `Opened` of the old one. Entries stay distinct objects, and the list equals `Run` of the history extended by this open. |
| Plugin.TetrisPlugin.OnClose | main.js:124-125 | The callback list and every entry's state are unchanged. |
| Plugin.TetrisPlugin.Update | main.js:40-44 | The loop calls `Execute` on every entry once, front to back. Afterwards each entry is its old state stepped once, the list itself is unchanged, the abstract registry is `Ticked` of the old one, and the list equals `Run` of the history extended by this tick. |

## Left out

- Host glue is not modelled: `playTetrisCommand`, `registerView`, `addCommand`, `getDisplayText` and `getViewType` (main.js:8-35, 85-91) are calls into the Obsidian library.
- The timer (`setInterval` at 1000/30 ms, main.js:37) is not modelled; `TetrisPlugin.Update` is a method the host calls.
- Canvas and DOM work is not modelled: creating the canvas, `getContext`, reading `window.innerWidth`/`innerHeight`, both `fillRect` calls and `appendChild` (main.js:94-98, 113-117, 121). The canvas size is a parameter of `OnOpen`.
- `TetrisGame` (main.js:48-69) is not modelled: its `update` and `render` are empty and nothing instantiates it.
- `execute`'s parameters `self` and `plugin` (main.js:103) are never used by its body, so the model has none.
- JavaScript numbers are doubles; the model uses unbounded integers, which agree with them for the pixel values involved. A canvas width of 0 makes `x % width` NaN; the model excludes it through the type `Width` (positive integers). Every height, including one of 10 or less, is modelled.
- Plugin.TetrisPlugin.Update: its contract does not record the order in which entries are stepped. The loop steps them front to back. Because every entry is a distinct object and `Execute` changes only its own object, that order cannot affect the final state.
