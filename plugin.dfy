/**
 * The plugin's mutable state: each `TetrisView.onOpen` (main.js:93-122) creates
 * a callback object whose `execute` updates the `x`, `y` it captured, and
 * pushes it onto the module-level list that `TetrisPlugin.update`
 * (main.js:40-44) walks on every timer tick.
 *
 * The module-level list becomes a field of `TetrisPlugin`, since Dafny has no
 * mutable globals; the captured variables become fields of `UpdateCallback`.
 */
module Plugin {
  import opened Stepper
  import opened Registry

  /** The object `onOpen` pushes (main.js:102-119), with the closure's captured state as fields. */
  class UpdateCallback {
    const width: Width
    const height: int
    var x: int
    var y: int

    /** The value this callback stands for in the registry model. */
    function State(): Session
      reads this
    {
      Session(width, height, Pos(x, y))
    }

    /** `onOpen` reads the canvas size once and starts the square at the origin (main.js:97-100). */
    constructor (width: Width, height: int)
      ensures this.width == width && this.height == height
      ensures x == 0 && y == 0
      ensures State() == Fresh(width, height)
    {
      this.width := width;
      this.height := height;
      x, y := 0, 0;
    }

    /** `execute` (main.js:103-111): one step of the falling square; the canvas size never changes. */
    method Execute()
      modifies this
      ensures Pos(x, y) == StepFn(old(Pos(x, y)), width, height)
      ensures State() == old(State()).Step()
    {
      y := y + Cell;
      if y >= height - Cell {
        y := 0;
        x := x + Cell;
      }
      x := JsRem(x, width);
    }
  }

  /** The plugin, owning the list that main.js keeps at module level (line 3). */
  class TetrisPlugin {
    var updateCallbacks: seq<UpdateCallback>
    /** The events that brought the plugin to its current state. */
    ghost var history: seq<Event>

    /** The list as a value, in the order the views were opened. */
    function Sessions(): seq<Session>
      reads this, updateCallbacks
    {
      seq(|updateCallbacks|, i reads this, updateCallbacks requires 0 <= i < |updateCallbacks| =>
        updateCallbacks[i].State())
    }

    /**
     * Every view pushed its own callback object, so no entry occurs twice, and
     * the list is the one the history of events produces.
     */
    ghost predicate Valid()
      reads this, updateCallbacks
    {
      (forall i, j :: 0 <= i < j < |updateCallbacks| ==> updateCallbacks[i] != updateCallbacks[j]) &&
      Sessions() == Run(history)
    }

    /** The list starts empty (main.js:3). */
    constructor ()
      ensures Valid() && updateCallbacks == [] && history == []
    {
      updateCallbacks := [];
      history := [];
    }

    /** `TetrisView.onOpen` (main.js:93-122): registers exactly one new callback at the end. */
    method OnOpen(width: Width, height: int) returns (cb: UpdateCallback)
      requires Valid()
      modifies this
      ensures Valid() && fresh(cb)
      ensures updateCallbacks == old(updateCallbacks) + [cb]
      ensures cb.State() == Fresh(width, height)
      ensures Sessions() == Opened(old(Sessions()), width, height)
      ensures history == old(history) + [Open(width, height)]
    {
      cb := new UpdateCallback(width, height);
      updateCallbacks := updateCallbacks + [cb];
      history := history + [Open(width, height)];
      RunSnoc(old(history), Open(width, height));
      assert Sessions() == old(Sessions()) + [cb.State()];
    }

    /** `TetrisView.onClose` (main.js:124-125) does nothing: its callback stays registered. */
    method OnClose()
      requires Valid()
      modifies this
      ensures Valid()
      ensures updateCallbacks == old(updateCallbacks)
      ensures Sessions() == old(Sessions())
      ensures history == old(history) + [Close]
    {
      history := history + [Close];
      RunSnoc(old(history), Close);
    }

    /**
     * `TetrisPlugin.update` (main.js:40-44): calls `execute` on every entry once,
     * in insertion order; stepping one entry leaves every other entry as it was.
     */
    method Update()
      requires Valid()
      modifies this, updateCallbacks
      ensures Valid()
      ensures updateCallbacks == old(updateCallbacks)
      ensures forall i :: 0 <= i < |updateCallbacks| ==>
        updateCallbacks[i].State() == old(updateCallbacks[i].State()).Step()
      ensures Sessions() == Ticked(old(Sessions()))
      ensures history == old(history) + [Tick]
    {
      var n := |updateCallbacks|;
      ghost var before := Sessions();
      for i := 0 to n
        invariant updateCallbacks == old(updateCallbacks) && history == old(history)
        invariant forall k :: 0 <= k < i ==> updateCallbacks[k].State() == before[k].Step()
        invariant forall k :: i <= k < n ==> updateCallbacks[k].State() == before[k]
      {
        updateCallbacks[i].Execute();
      }
      history := history + [Tick];
      RunSnoc(old(history), Tick);
      assert Sessions() == Ticked(old(Sessions()));
    }
  }
}
