/**
 * The module-level `updateCalbacks` list of main.js (line 3) as a value: one
 * `Session` per opened `TetrisView`, in the order the views were opened. A
 * tick of the plugin's timer (`TetrisPlugin.update`, main.js:40-44) runs every
 * entry's `execute` once, front to back; opening a view appends one entry
 * (main.js:102) and closing a view does nothing (main.js:124-125).
 */
module Registry {
  import opened Stepper

  /** What one registered callback holds: the canvas size read at open time and its captured `x`, `y`. */
  datatype Session = Session(width: Width, height: int, pos: Pos) {
    /** One `execute` of this entry: the position steps, the canvas size stays. */
    function Step(): Session
    {
      Session(width, height, StepFn(pos, width, height))
    }
  }

  /** The entry a freshly opened view registers (main.js:97-102). */
  function Fresh(width: Width, height: int): Session
  {
    Session(width, height, Origin)
  }

  /** `onOpen` appends exactly one fresh entry and keeps the others as they are. */
  function Opened(reg: seq<Session>, width: Width, height: int): (r: seq<Session>)
    ensures |r| == |reg| + 1
    ensures r[..|reg|] == reg
    ensures r[|reg|].pos == Origin && r[|reg|].width == width && r[|reg|].height == height
  {
    reg + [Fresh(width, height)]
  }

  /**
   * `update` walks the list front to back and steps each entry once; an entry's
   * new state depends on its own state only.
   */
  function Ticked(reg: seq<Session>): (r: seq<Session>)
    ensures |r| == |reg|
    ensures forall i :: 0 <= i < |reg| ==> r[i] == reg[i].Step()
  {
    if reg == [] then [] else [reg[0].Step()] + Ticked(reg[1..])
  }

  /** What the host can do to the plugin: open a view, fire the timer, close a view. */
  datatype Event = Open(width: Width, height: int) | Tick | Close

  function Apply(reg: seq<Session>, e: Event): seq<Session>
  {
    match e
    case Open(w, h) => Opened(reg, w, h)
    case Tick => Ticked(reg)
    case Close => reg
  }

  /** The registry after a history of events, starting from the empty list. */
  function Run(events: seq<Event>): seq<Session>
  {
    if events == [] then []
    else Apply(Run(events[..|events| - 1]), events[|events| - 1])
  }

  lemma RunSnoc(events: seq<Event>, e: Event)
    ensures Run(events + [e]) == Apply(Run(events), e)
  {
    assert (events + [e])[..|events|] == events;
  }

  function CountOpens(events: seq<Event>): nat
  {
    if events == [] then 0 else (if events[0].Open? then 1 else 0) + CountOpens(events[1..])
  }

  function CountTicks(events: seq<Event>): nat
  {
    if events == [] then 0 else (if events[0].Tick? then 1 else 0) + CountTicks(events[1..])
  }

  /**
   * Reference definition of the registry: one entry per `Open`, in order, each
   * with the canvas size of its `Open` and positioned where the stepper is after
   * as many steps from the origin as there were ticks after that `Open`.
   */
  function Expected(events: seq<Event>): seq<Session>
  {
    if events == [] then []
    else match events[0]
      case Open(w, h) => [Session(w, h, StepN(Origin, w, h, CountTicks(events[1..])))] + Expected(events[1..])
      case _ => Expected(events[1..])
  }

  lemma {:induction false} CountTicksSnoc(events: seq<Event>, e: Event)
    ensures CountTicks(events + [e]) == CountTicks(events) + (if e.Tick? then 1 else 0)
  {
    if events != [] {
      assert (events + [e])[1..] == events[1..] + [e];
      CountTicksSnoc(events[1..], e);
    }
  }

  lemma {:induction false} CountOpensSnoc(events: seq<Event>, e: Event)
    ensures CountOpens(events + [e]) == CountOpens(events) + (if e.Open? then 1 else 0)
  {
    if events != [] {
      assert (events + [e])[1..] == events[1..] + [e];
      CountOpensSnoc(events[1..], e);
    }
  }

  /** The reference definition reacts to one more event as the plugin does. */
  lemma {:induction false} ExpectedSnoc(events: seq<Event>, e: Event)
    ensures Expected(events + [e]) == Apply(Expected(events), e)
  {
    if events == [] {
      assert [e][1..] == [];
    } else {
      var rest := events[1..];
      assert (events + [e])[1..] == rest + [e];
      ExpectedSnoc(rest, e);
      CountTicksSnoc(rest, e);
      match events[0]
      case Open(w, h) =>
        var head := Session(w, h, StepN(Origin, w, h, CountTicks(rest)));
        if e.Tick? {
          assert Session(w, h, StepN(Origin, w, h, CountTicks(rest) + 1)) == head.Step();
          var t := Ticked([head] + Expected(rest));
          assert t == [head.Step()] + Ticked(Expected(rest));
        } else if e.Open? {
          assert [head] + (Expected(rest) + [Fresh(e.width, e.height)])
              == ([head] + Expected(rest)) + [Fresh(e.width, e.height)];
        }
      case _ =>
    }
  }

  /**
   * The registry after any history is the reference one: every entry has been
   * stepped exactly once per tick since its view opened, and by nothing else.
   */
  lemma {:induction false} RunIsExpected(events: seq<Event>)
    ensures Run(events) == Expected(events)
  {
    if events != [] {
      var init := events[..|events| - 1];
      var e := events[|events| - 1];
      assert events == init + [e];
      RunIsExpected(init);
      ExpectedSnoc(init, e);
    }
  }

  /** One entry per `Open`; closing a view never removes one. */
  lemma {:induction false} RunLength(events: seq<Event>)
    ensures |Run(events)| == CountOpens(events)
  {
    if events != [] {
      var init := events[..|events| - 1];
      var e := events[|events| - 1];
      assert events == init + [e];
      RunLength(init);
      CountOpensSnoc(init, e);
    }
  }

  /**
   * The registry only grows: what was registered after a prefix of the history
   * is still registered, at the same index, with the same canvas size, and has
   * since been stepped once per later tick.
   */
  lemma {:induction false} RunOnlyGrows(events: seq<Event>, k: nat)
    requires k <= |events|
    ensures |Run(events[..k])| <= |Run(events)|
    ensures forall i :: 0 <= i < |Run(events[..k])| ==>
      var was := Run(events[..k])[i];
      Run(events)[i] == Session(was.width, was.height,
        StepN(was.pos, was.width, was.height, CountTicks(events[k..])))
  {
    if k < |events| {
      var init := events[..|events| - 1];
      var e := events[|events| - 1];
      assert events == init + [e];
      assert init[..k] == events[..k];
      assert events[k..] == init[k..] + [e];
      RunOnlyGrows(init, k);
      CountTicksSnoc(init[k..], e);
    } else {
      assert events[..k] == events;
      assert events[k..] == [];
    }
  }

  /** Every registered entry satisfies the stepper's invariant, whatever happened before. */
  lemma {:induction false} RunKeepsInv(events: seq<Event>)
    ensures forall i :: 0 <= i < |Run(events)| ==>
      Inv(Run(events)[i].pos, Run(events)[i].width, Run(events)[i].height)
  {
    if events != [] {
      var init := events[..|events| - 1];
      RunKeepsInv(init);
      forall i | 0 <= i < |Run(events)|
        ensures Inv(Run(events)[i].pos, Run(events)[i].width, Run(events)[i].height)
      {
        var s := Run(events)[i];
        if i < |Run(init)| {
          var s0 := Run(init)[i];
          StepNKeepsInv(s0.pos, s0.width, s0.height, 1);
        } else {
          StepNKeepsInv(Origin, s.width, s.height, 0);
        }
      }
    }
  }
}
