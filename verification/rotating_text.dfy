/** The `RotatingText` component: a cursor `currentTextIndex` over a fixed list `texts`, moved by
    `next`, `previous`, `jumpTo` and `reset`, reporting every actual move to `onNext`; the
    word split of the entry under the cursor; and the per-character stagger delay. */
module RotatingText {
  import JsMath
  import Cyclic
  import Words
  import opened Optional

  /** An entry of `texts`: a bare string, or a `{text, icon}` record as the skills section passes. */
  datatype Item = Plain(text: string) | WithIcon(text: string, icon: string)

  /** The props that govern the cursor: the list, `loop` (default true), and whether an `onNext`
      handler was passed. */
  datatype Config = Config(texts: seq<Item>, loop: bool, hasOnNext: bool)

  /** What an operation leaves behind: the new `currentTextIndex`, and the arguments `onNext` was
      called with, in call order. */
  datatype Outcome = Outcome(index: int, notified: seq<int>)

  /** The four imperative-handle operations; an auto-advance tick is one `NextOp`. */
  datatype Op = NextOp | PreviousOp | JumpToOp(target: int) | ResetOp

  /** `currentTextIndex` starts at 0. */
  const InitialIndex := 0

  /** The callback discipline every operation keeps: `onNext` (when given) is called exactly once,
      with the new index, if the index changed, and not at all otherwise. */
  predicate NotifiesOnChange(cfg: Config, before: int, o: Outcome) {
    o.notified == if o.index != before && cfg.hasOnNext then [o.index] else []
  }

  /** The index is a valid position of a non-empty list. */
  predicate InRange(cfg: Config, i: int) {
    0 <= i < |cfg.texts|
  }

  /** `handleIndexChange`: store the new index and pass it to `onNext` if there is one. */
  function HandleIndexChange(cfg: Config, newIndex: int): (o: Outcome)
    ensures o.index == newIndex
    ensures o.notified == [newIndex] <==> cfg.hasOnNext
    ensures !cfg.hasOnNext ==> o.notified == []
    ensures |o.notified| <= 1
  {
    Outcome(newIndex, if cfg.hasOnNext then [newIndex] else [])
  }

  /** Commit `target` only when it differs from `current`, as all four operations do. */
  function MoveTo(cfg: Config, current: int, target: int): (o: Outcome)
    ensures o.index == target
    ensures NotifiesOnChange(cfg, current, o)
  {
    if target != current then HandleIndexChange(cfg, target) else Outcome(current, [])
  }

  /** `next`: one step forward; at the last position wrap to 0 with `loop`, stay put without. */
  function Next(cfg: Config, current: int): (o: Outcome)
    ensures NotifiesOnChange(cfg, current, o)
    ensures InRange(cfg, current) ==> InRange(cfg, o.index)
    ensures InRange(cfg, current) && cfg.loop ==> o.index == Cyclic.Succ(current, |cfg.texts|)
    ensures InRange(cfg, current) && !cfg.loop ==> o.index == JsMath.Min(current + 1, |cfg.texts| - 1)
  {
    var nextIndex :=
      if current == |cfg.texts| - 1 then (if cfg.loop then 0 else current)
      else current + 1;
    MoveTo(cfg, current, nextIndex)
  }

  /** `previous`: one step back; at 0 wrap to the last position with `loop`, stay put without. */
  function Previous(cfg: Config, current: int): (o: Outcome)
    ensures NotifiesOnChange(cfg, current, o)
    ensures InRange(cfg, current) ==> InRange(cfg, o.index)
    ensures InRange(cfg, current) && cfg.loop ==> o.index == Cyclic.Pred(current, |cfg.texts|)
    ensures InRange(cfg, current) && !cfg.loop ==> o.index == JsMath.Max(current - 1, 0)
  {
    var prevIndex :=
      if current == 0 then (if cfg.loop then |cfg.texts| - 1 else current)
      else current - 1;
    MoveTo(cfg, current, prevIndex)
  }

  /** `jumpTo(index)`: clamp the target into the list rather than wrap it. */
  function JumpTo(cfg: Config, current: int, target: int): (o: Outcome)
    ensures NotifiesOnChange(cfg, current, o)
    ensures |cfg.texts| > 0 ==> InRange(cfg, o.index)
    ensures InRange(cfg, target) ==> o.index == target
    ensures target < 0 ==> o.index == 0
    ensures target >= |cfg.texts| ==> o.index == JsMath.Max(0, |cfg.texts| - 1)
  {
    MoveTo(cfg, current, JsMath.Clamp(target, 0, |cfg.texts| - 1))
  }

  /** `reset`: back to the first entry. */
  function Reset(cfg: Config, current: int): (o: Outcome)
    ensures o.index == InitialIndex
    ensures NotifiesOnChange(cfg, current, o)
    ensures current == 0 ==> o.notified == []
  {
    MoveTo(cfg, current, 0)
  }

  /** One call of the imperative handle. */
  function Apply(cfg: Config, current: int, op: Op): (o: Outcome)
    ensures NotifiesOnChange(cfg, current, o)
    ensures InRange(cfg, current) ==> InRange(cfg, o.index)
  {
    match op
    case NextOp => Next(cfg, current)
    case PreviousOp => Previous(cfg, current)
    case JumpToOp(t) => JumpTo(cfg, current, t)
    case ResetOp => Reset(cfg, current)
  }

  /** A sequence of operations from `start`: the final index and every `onNext` argument in order. */
  function Run(cfg: Config, start: int, ops: seq<Op>): Outcome
    decreases |ops|
  {
    if |ops| == 0 then Outcome(start, [])
    else
      var first := Apply(cfg, start, ops[0]);
      var rest := Run(cfg, first.index, ops[1..]);
      Outcome(rest.index, first.notified + rest.notified)
  }

  /** The same operation `k` times in a row; `Repeat(cfg, i, NextOp, k)` is `k` auto-advance ticks. */
  function Repeat(cfg: Config, start: int, op: Op, k: nat): Outcome
    decreases k
  {
    if k == 0 then Outcome(start, [])
    else
      var before := Repeat(cfg, start, op, k - 1);
      var o := Apply(cfg, before.index, op);
      Outcome(o.index, before.notified + o.notified)
  }

  /** The concatenation of a list of lists, in order. */
  function Flatten<T>(parts: seq<seq<T>>): seq<T>
    decreases |parts|
  {
    if |parts| == 0 then [] else parts[0] + Flatten(parts[1..])
  }

  /** Lists that are all empty flatten to the empty list. */
  lemma {:induction false} FlattenOfEmpties<T>(parts: seq<seq<T>>)
    ensures (forall k :: 0 <= k < |parts| ==> parts[k] == []) ==> Flatten(parts) == []
    decreases |parts|
  {
    if |parts| > 0 {
      FlattenOfEmpties(parts[1..]);
      assert forall k :: 0 <= k < |parts| - 1 ==> parts[1..][k] == parts[k + 1];
    }
  }

  /** No target after position `k` moves away from `current`. */
  predicate SettledAfter(current: int, targets: seq<int>, k: int) {
    forall j :: 0 <= j < |targets| && k < j ==> targets[j] == current
  }

  /** The value a state variable holds after a batch of setter calls, where `targets[k]` is what
      the `k`-th caller computed and a caller whose target equals `current` does not call the
      setter: the last target that differs from `current`, or `current` if there is none. */
  function LastMove(current: int, targets: seq<int>): (r: int)
    ensures SettledAfter(current, targets, -1) ==> r == current
    ensures r == current || r in targets
    decreases |targets|
  {
    if |targets| == 0 then current
    else if targets[|targets| - 1] != current then targets[|targets| - 1]
    else LastMove(current, targets[..|targets| - 1])
  }

  /** A moving target with no moving target after it is the one that sticks. */
  lemma {:induction false} LastMoveIsLast(current: int, targets: seq<int>, k: int)
    requires 0 <= k < |targets| && targets[k] != current && SettledAfter(current, targets, k)
    ensures LastMove(current, targets) == targets[k]
    decreases |targets|
  {
    if k < |targets| - 1 {
      var init := targets[..|targets| - 1];
      assert targets[|targets| - 1] == current;
      assert SettledAfter(current, init, k);
      LastMoveIsLast(current, init, k);
    }
  }

  /** `LastMoveIsLast` for every position at once. */
  lemma LastMoveSpec(current: int, targets: seq<int>)
    ensures forall k :: 0 <= k < |targets| && targets[k] != current && SettledAfter(current, targets, k) ==>
              LastMove(current, targets) == targets[k]
  {
    forall k | 0 <= k < |targets| && targets[k] != current && SettledAfter(current, targets, k) {
      LastMoveIsLast(current, targets, k);
    }
  }

  /** The index each call of a batch computes from the same `current`. */
  function Targets(cfg: Config, current: int, ops: seq<Op>): (t: seq<int>)
    ensures |t| == |ops|
    ensures forall k :: 0 <= k < |ops| ==> t[k] == Apply(cfg, current, ops[k]).index
    ensures InRange(cfg, current) ==> forall k :: 0 <= k < |t| ==> InRange(cfg, t[k])
  {
    seq(|ops|, k requires 0 <= k < |ops| => Apply(cfg, current, ops[k]).index)
  }

  /** What each call of a batch passes to `onNext`: nothing for a call that does not move. */
  function Notes(cfg: Config, current: int, ops: seq<Op>): (n: seq<seq<int>>)
    ensures |n| == |ops|
    ensures forall k :: 0 <= k < |ops| && Apply(cfg, current, ops[k]).index == current ==> n[k] == []
  {
    seq(|ops|, k requires 0 <= k < |ops| => Apply(cfg, current, ops[k]).notified)
  }

  /** Several operations called from one event handler, before React re-renders: every call's
      closure reads the same `currentTextIndex`, each call that moves the index calls `onNext`,
      and the last value passed to `setCurrentTextIndex` is the one that sticks. */
  function Batch(cfg: Config, current: int, ops: seq<Op>): (o: Outcome)
    ensures forall k :: (0 <= k < |ops| && Apply(cfg, current, ops[k]).index != current &&
                         (forall j :: k < j < |ops| ==> Apply(cfg, current, ops[j]).index == current)) ==>
              o.index == Apply(cfg, current, ops[k]).index
    ensures (forall k :: 0 <= k < |ops| ==> Apply(cfg, current, ops[k]).index == current) ==> o == Outcome(current, [])
    ensures o.notified == Flatten(seq(|ops|, k requires 0 <= k < |ops| => Apply(cfg, current, ops[k]).notified))
    ensures InRange(cfg, current) ==> InRange(cfg, o.index)
  {
    var targets := Targets(cfg, current, ops);
    var notes := Notes(cfg, current, ops);
    FlattenOfEmpties(notes);
    LastMoveSpec(current, targets);
    Outcome(LastMove(current, targets), Flatten(notes))
  }

  /** A handler making a single call behaves like that call made on its own. */
  lemma SingleCallBatchIsRun(cfg: Config, current: int, op: Op)
    ensures Batch(cfg, current, [op]) == Run(cfg, current, [op])
  {
    var o := Apply(cfg, current, op);
    var notes := Notes(cfg, current, [op]);
    assert notes == [o.notified] && notes[1..] == [];
    assert Flatten(notes) == o.notified + Flatten(notes[1..]) == o.notified;
    assert Run(cfg, current, [op]) == Outcome(o.index, o.notified + []);
  }

  /** In one handler from the first entry, `next` then `reset`: `reset` still sees index 0 and does
      nothing, so the cursor ends on entry 1 and `onNext` hears 1 once. */
  lemma NextThenResetInOneHandler(cfg: Config)
    requires cfg.loop && cfg.hasOnNext && |cfg.texts| == 3
    ensures Batch(cfg, InitialIndex, [NextOp, ResetOp]) == Outcome(1, [1])
  {
    var ops := [NextOp, ResetOp];
    assert Apply(cfg, 0, ops[0]) == Outcome(1, [1]);
    assert Apply(cfg, 0, ops[1]) == Outcome(0, []);
    var notes := Notes(cfg, 0, ops);
    assert notes == [[1], []];
    assert notes[1..] == [[]] && notes[1..][1..] == [];
    assert Flatten(notes[1..]) == [] + Flatten(notes[1..][1..]) == [];
    assert Flatten(notes) == [1] + Flatten(notes[1..]) == [1];
    assert SettledAfter(0, Targets(cfg, 0, ops), 0);
  }

  /** Two `next` calls in one handler move the cursor once and report the same index twice, where
      two ticks on successive renders move it twice. */
  lemma DoubleNextInOneHandler(cfg: Config, current: int)
    requires cfg.loop && cfg.hasOnNext && |cfg.texts| > 1 && InRange(cfg, current)
    ensures var once := Cyclic.Succ(current, |cfg.texts|);
            Batch(cfg, current, [NextOp, NextOp]) == Outcome(once, [once, once])
    ensures Batch(cfg, current, [NextOp, NextOp]).index != Run(cfg, current, [NextOp, NextOp]).index
  {
    var ops := [NextOp, NextOp];
    var once := Cyclic.Succ(current, |cfg.texts|);
    var step := Next(cfg, current);
    assert step == Outcome(once, [once]);
    var notes := seq(|ops|, k requires 0 <= k < |ops| => Apply(cfg, current, ops[k]).notified);
    assert notes == [[once], [once]];
    assert notes[1..] == [[once]] && notes[1..][1..] == [];
    assert Flatten(notes[1..]) == [once] + Flatten(notes[1..][1..]) == [once];
    assert Flatten(notes) == [once] + Flatten(notes[1..]) == [once, once];
    assert ops[1..] == [NextOp];
  }

  /** Whatever the operations, a non-empty list keeps the cursor, and every index reported to
      `onNext`, inside the list. */
  lemma {:induction false} RunStaysInRange(cfg: Config, start: int, ops: seq<Op>)
    requires InRange(cfg, start)
    ensures InRange(cfg, Run(cfg, start, ops).index)
    ensures forall k :: 0 <= k < |Run(cfg, start, ops).notified| ==> InRange(cfg, Run(cfg, start, ops).notified[k])
    decreases |ops|
  {
    if |ops| > 0 {
      var first := Apply(cfg, start, ops[0]);
      RunStaysInRange(cfg, first.index, ops[1..]);
    }
  }

  /** With `loop`, ticks walk the list modulo its length. */
  lemma {:induction false} LoopingTicksAreModular(cfg: Config, start: int, k: nat)
    requires cfg.loop && InRange(cfg, start)
    ensures Repeat(cfg, start, NextOp, k).index == Cyclic.SuccN(start, |cfg.texts|, k)
    ensures Repeat(cfg, start, NextOp, k).index == (start + k) % |cfg.texts|
    decreases k
  {
    if k > 0 {
      LoopingTicksAreModular(cfg, start, k - 1);
      Cyclic.SuccNInRange(start, |cfg.texts|, k - 1);
    }
    Cyclic.SuccNIsAddition(start, |cfg.texts|, k);
  }

  /** Cyclic closure: with `loop`, as many ticks as there are entries bring the cursor back. */
  lemma LoopingFullTurn(cfg: Config, start: int)
    requires cfg.loop && InRange(cfg, start)
    ensures Repeat(cfg, start, NextOp, |cfg.texts|).index == start
  {
    LoopingTicksAreModular(cfg, start, |cfg.texts|);
    Cyclic.SuccNFullTurn(start, |cfg.texts|);
  }

  /** With `loop` and at least two entries every tick moves, so `onNext` hears each index visited. */
  lemma {:induction false} LoopingTicksNotifyEachStep(cfg: Config, start: int, k: nat)
    requires cfg.loop && cfg.hasOnNext && |cfg.texts| > 1 && InRange(cfg, start)
    ensures Repeat(cfg, start, NextOp, k).notified == seq(k, j requires 0 <= j < k => (start + j + 1) % |cfg.texts|)
    decreases k
  {
    var n := |cfg.texts|;
    if k > 0 {
      LoopingTicksNotifyEachStep(cfg, start, k - 1);
      LoopingTicksAreModular(cfg, start, k - 1);
      LoopingTicksAreModular(cfg, start, k);
      var before := Repeat(cfg, start, NextOp, k - 1);
      var o := Next(cfg, before.index);
      assert o.index == (start + k) % n;
      Cyclic.ModAddOne(start + k - 1, n);
    }
  }

  /** A single entry never moves under `next`, so `onNext` is never called by the timer. */
  lemma {:induction false} SingleEntryTicksAreSilent(cfg: Config, k: nat)
    requires |cfg.texts| == 1
    ensures Repeat(cfg, 0, NextOp, k) == Outcome(0, [])
    decreases k
  {
    if k > 0 {
      SingleEntryTicksAreSilent(cfg, k - 1);
    }
  }

  /** Without `loop`, `k` ticks saturate at the last entry. */
  lemma {:induction false} SaturatingTicks(cfg: Config, start: int, k: nat)
    requires !cfg.loop && InRange(cfg, start)
    ensures Repeat(cfg, start, NextOp, k).index == JsMath.Min(start + k, |cfg.texts| - 1)
    decreases k
  {
    if k > 0 {
      SaturatingTicks(cfg, start, k - 1);
    }
  }

  /** Without `loop`, `k` calls to `previous` saturate at the first entry. */
  lemma {:induction false} SaturatingRewinds(cfg: Config, start: int, k: nat)
    requires !cfg.loop && InRange(cfg, start)
    ensures Repeat(cfg, start, PreviousOp, k).index == JsMath.Max(start - k, 0)
    decreases k
  {
    if k > 0 {
      SaturatingRewinds(cfg, start, k - 1);
    }
  }

  /** `jumpTo` is idempotent: jumping again to the same target changes nothing and calls nobody. */
  lemma JumpToIdempotent(cfg: Config, current: int, target: int)
    ensures var o := JumpTo(cfg, current, target);
            JumpTo(cfg, o.index, target) == Outcome(o.index, [])
  {
  }

  /** `previous` undoes `next` when both wrap, and away from the ends when neither does. */
  lemma PreviousUndoesNext(cfg: Config, current: int)
    requires InRange(cfg, current)
    requires cfg.loop || current < |cfg.texts| - 1
    ensures Previous(cfg, Next(cfg, current).index).index == current
  {
    if cfg.loop {
      Cyclic.PredAfterSucc(current, |cfg.texts|);
    }
  }

  /** A four-entry looping list, ticked four times from the start, reports 1, 2, 3, 0. */
  lemma FourTicksOnFourEntries(cfg: Config)
    requires cfg.loop && cfg.hasOnNext && |cfg.texts| == 4
    ensures Repeat(cfg, InitialIndex, NextOp, 4) == Outcome(InitialIndex, [1, 2, 3, 0])
  {
  }

  /** Three looping entries from the start: previous, previous, next visit 2, 1, 2. */
  lemma BackBackForward(cfg: Config)
    requires cfg.loop && cfg.hasOnNext && |cfg.texts| == 3
    ensures Run(cfg, InitialIndex, [PreviousOp, PreviousOp, NextOp]) == Outcome(2, [2, 1, 2])
  {
  }

  /** The rendered state of the entry under the cursor: its words and its icon, if any. */
  datatype Elements = Elements(words: seq<Words.Word>, icon: Option<string>)

  /** `elements`: split the current entry's text; carry the icon of a `{text, icon}` entry.
      `splitter` is `splitIntoCharacters`, whichever of its two branches the browser takes. */
  function CurrentElements(cfg: Config, current: int, splitBy: string, splitter: string -> seq<string>): (e: Elements)
    requires InRange(cfg, current)
    requires Words.SpellsWord(splitter)
    ensures |e.words| == |Words.Split(cfg.texts[current].text)|
    ensures forall k :: 0 <= k < |e.words| ==> Words.Concat(e.words[k].characters) == Words.Split(cfg.texts[current].text)[k]
    ensures forall k :: 0 <= k < |e.words| ==> (e.words[k].needsSpace <==> k != |e.words| - 1)
    ensures Words.Render(e.words) == cfg.texts[current].text
    ensures e.icon.Some? <==> cfg.texts[current].WithIcon?
    ensures e.icon.Some? ==> e.icon.value == cfg.texts[current].icon
  {
    var item := cfg.texts[current];
    var words := Words.Segment(item.text, splitBy, splitter);
    Words.RenderSegment(item.text, splitBy, splitter);
    Elements(words, if item.WithIcon? then Some(item.icon) else None)
  }

  /** `staggerFrom`: where the reveal starts. `Random` draws its origin at each call. */
  datatype StaggerFrom = First | Last | Center | Random | FromIndex(origin: int)

  /** `getStaggerDelay(index, totalChars)`: the delay grows with the distance from the origin.
      `draw` stands for `Math.floor(Math.random() * total)`, used only by `Random`. */
  function StaggerDelay(from: StaggerFrom, duration: int, index: int, total: int, draw: int): (r: int)
    ensures duration >= 0 && 0 <= index < total ==> r >= 0
    ensures duration >= 0 && !from.First? && !from.Last? ==> r >= 0
  {
    match from
    case First => ScaledDelay(index, duration); index * duration
    case Last => ScaledDelay(total - 1 - index, duration); (total - 1 - index) * duration
    // Dafny's `/` by a positive divisor rounds down, as `Math.floor(total / 2)` does.
    case Center => ScaledDelay(JsMath.Abs(total / 2 - index), duration); JsMath.Abs(total / 2 - index) * duration
    case Random => ScaledDelay(JsMath.Abs(draw - index), duration); JsMath.Abs(draw - index) * duration
    case FromIndex(s) => ScaledDelay(JsMath.Abs(s - index), duration); JsMath.Abs(s - index) * duration
  }

  /** A non-negative distance scaled by a non-negative duration is a non-negative delay. */
  lemma ScaledDelay(distance: int, duration: int)
    ensures distance >= 0 && duration >= 0 ==> distance * duration >= 0
  {
  }

  /** Distance from the origin, the factor every delay is a multiple of. */
  function StaggerDistance(from: StaggerFrom, index: int, total: int, draw: int): (d: int)
  {
    match from
    case First => index
    case Last => total - 1 - index
    case Center => JsMath.Abs(total / 2 - index)
    case Random => JsMath.Abs(draw - index)
    case FromIndex(s) => JsMath.Abs(s - index)
  }

  /** Every delay is its distance from the origin times the stagger duration, and for the three
      fixed origins that distance is at most `total - 1`. */
  lemma StaggerDelayIsScaledDistance(from: StaggerFrom, duration: int, index: int, total: int, draw: int)
    requires 0 <= index < total
    ensures StaggerDelay(from, duration, index, total, draw) == StaggerDistance(from, index, total, draw) * duration
    ensures from.First? || from.Last? || from.Center? ==> 0 <= StaggerDistance(from, index, total, draw) <= total - 1
  {
  }

  /** Revealing from the last character is revealing from the first one in mirror order. */
  lemma LastMirrorsFirst(duration: int, index: int, total: int, draw: int)
    ensures StaggerDelay(Last, duration, index, total, draw) == StaggerDelay(First, duration, total - 1 - index, total, draw)
  {
  }

  /** With a positive duration the centre character, and only it, starts at once. */
  lemma CenterStartsFirst(duration: int, index: int, total: int, draw: int)
    requires duration > 0
    ensures StaggerDelay(Center, duration, index, total, draw) == 0 <==> index == total / 2
  {
  }

  /** On an odd count the centre reveal is symmetric about the middle character. */
  lemma CenterIsSymmetric(duration: int, index: int, total: int, draw: int)
    requires total % 2 == 1
    ensures StaggerDelay(Center, duration, index, total, draw) == StaggerDelay(Center, duration, total - 1 - index, total, draw)
  {
  }

  /** With a non-negative duration, later characters never start earlier under `First`. */
  lemma FirstIsMonotone(duration: int, i: int, j: int, total: int, draw: int)
    requires duration >= 0 && i <= j
    ensures StaggerDelay(First, duration, i, total, draw) <= StaggerDelay(First, duration, j, total, draw)
  {
  }
}
