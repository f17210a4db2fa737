/**
 * The shared state of src/main.rs and its two writers: the clipboard monitor,
 * which every 500 ms captures the clipboard into a queue, and the global
 * keyboard hook, where Ctrl+V replays the head of the queue and Ctrl+` turns
 * the tool on and off.
 *
 * Each monitor tick and each key event is one atomic step. The steps are
 * specified as functions on a `Snapshot` (`TickStep`, `KeyStep`) and the
 * `SharedState` object is proved to follow them.
 */
module Turbo {
  import opened Wrappers
  import opened Clipboard

  /** The formats the monitor asks for, in order of preference. */
  const SUPPORTED_FORMATS: seq<U32> := [CF_UNICODETEXT, CF_TEXT, CF_DIB]

  /** Number of characters of a text record the table shows. */
  const MAX_TEXT: nat := 150

  predicate IsText(f: U32) {
    f == CF_UNICODETEXT || f == CF_TEXT
  }

  /**
   * A record as the monitor queues it: its digest is MD5 of its bytes, its
   * format is supported, a text record carries text and no preview, and an
   * image record carries the decoded preview and no text.
   */
  predicate Captured(r: ContentRecord, md5Of: seq<Byte> -> Digest) {
    && r.md5 == md5Of(r.raw)
    && r.dataType in SUPPORTED_FORMATS
    && (if r.dataType == CF_DIB
        then r.data.None? && r.img == Decode(r.raw) && r.img.Some?
        else r.data.Some? && r.img.None?)
  }

  /**
   * The record one tick builds with `Data::new(f)`, `set_raw(raw)` and, for a
   * text format, `set_data` of the clipboard string or "" when reading it
   * fails. None when `set_raw` panics on a bitmap it cannot decode.
   */
  function CaptureOf(f: U32, raw: seq<Byte>, md5Of: seq<Byte> -> Digest, textRead: Option<string>): (r: Option<ContentRecord>)
    ensures r.None? <==> f == CF_DIB && Decode(raw).None?
    ensures r.Some? ==> r.value.dataType == f && r.value.raw == raw && r.value.md5 == md5Of(raw)
    ensures r.Some? && f in SUPPORTED_FORMATS ==> Captured(r.value, md5Of)
    ensures r.Some? && IsText(f) ==> r.value.data == Some(textRead.GetOr(""))
    ensures r.Some? && f != CF_DIB ==> r.value.GetImage() == DEFAULT_IMAGE
  {
    if f == CF_DIB then
      var img := Decode(raw);
      if img.None? then None else Some(ContentRecord(f, raw, md5Of(raw), None, img))
    else if IsText(f) then
      Some(ContentRecord(f, raw, md5Of(raw), Some(textRead.GetOr("")), None))
    else
      Some(ContentRecord(f, raw, md5Of(raw), None, None))
  }

  /**
   * The state shared by the monitor, the keyboard hook and the window:
   * `CLIPBOARD_QUEUE`, `PREVIOUS_MD5`, `CLIPBOARD_ENABLED`, the hook's
   * `CTRL_PRESSED`, and whether the monitor task is still alive.
   */
  datatype Snapshot = Snapshot(queue: seq<ContentRecord>, previousMd5: Digest, enabled: bool,
                               ctrlPressed: bool, monitorRunning: bool)

  /** At start-up: empty queue, zero digest, disabled, Ctrl up, monitor running. */
  const INITIAL: Snapshot := Snapshot([], ZERO_DIGEST, false, false, true)

  /** Every queued record is one the monitor could have captured. */
  predicate AllCaptured(q: seq<ContentRecord>, md5Of: seq<Byte> -> Digest) {
    forall r :: r in q ==> Captured(r, md5Of)
  }

  /** A tick appends a record: the monitor runs, is enabled, reads a new supported content. */
  predicate TickCaptures(s: Snapshot, md5Of: seq<Byte> -> Digest, format: Option<U32>, rawRead: Option<seq<Byte>>) {
    && s.monitorRunning && s.enabled
    && format.Some? && format.value in SUPPORTED_FORMATS
    && rawRead.Some? && (format.value == CF_DIB ==> Decode(rawRead.value).Some?)
    && md5Of(rawRead.value) != s.previousMd5
  }

  /**
   * One monitor tick. `format` is what `which_format_avail` reported,
   * `rawRead` the result of reading that format, `textRead` the result of
   * `get_clipboard_string`. A bitmap that cannot be decoded panics inside
   * `set_raw`, which ends the monitor task for good.
   */
  function TickStep(s: Snapshot, md5Of: seq<Byte> -> Digest, format: Option<U32>,
                    rawRead: Option<seq<Byte>>, textRead: Option<string>): (t: Snapshot)
    ensures t.enabled == s.enabled && t.ctrlPressed == s.ctrlPressed
    ensures !s.monitorRunning || !s.enabled || format.None? || rawRead.None? ==> t == s
    ensures t.monitorRunning <==>
              s.monitorRunning && !(s.enabled && format == Some(CF_DIB) && rawRead.Some? && Decode(rawRead.value).None?)
    ensures t.queue != s.queue <==> TickCaptures(s, md5Of, format, rawRead)
    ensures t.queue == s.queue ==> t.previousMd5 == s.previousMd5
    ensures t.queue != s.queue ==>
              && |t.queue| == |s.queue| + 1 && t.queue[..|s.queue|] == s.queue
              && var r := t.queue[|s.queue|];
              && r.dataType == format.value && r.raw == rawRead.value && Captured(r, md5Of)
              && t.previousMd5 == r.md5 == md5Of(rawRead.value)
              && (IsText(r.dataType) ==> r.data == Some(textRead.GetOr("")))
  {
    if !s.monitorRunning || !s.enabled || format.None? || rawRead.None? then s
    else
      match CaptureOf(format.value, rawRead.value, md5Of, textRead)
      case None => s.(monitorRunning := false)
      case Some(r) =>
        if r.dataType !in SUPPORTED_FORMATS || r.md5 == s.previousMd5 then s
        else
          assert (s.queue + [r])[..|s.queue|] == s.queue;
          s.(queue := s.queue + [r], previousMd5 := r.md5)
  }

  // ---------------------------------------------------------------------
  // Keyboard events

  /** The keys the hook distinguishes; `OtherKey` stands for every other key. */
  datatype Key = ControlLeft | ControlRight | KeyV | BackQuote | OtherKey

  /** `rdev::EventType`; `OtherEvent` stands for mouse and wheel events. */
  datatype EventType = KeyPress(key: Key) | KeyRelease(key: Key) | OtherEvent

  predicate IsCtrl(k: Key) {
    k == ControlLeft || k == ControlRight
  }

  /** The state after a key event, and the record popped for writing back to the clipboard. */
  datatype KeyOutcome = KeyOutcome(state: Snapshot, popped: Option<ContentRecord>)

  /** Ctrl+V pops the head: V pressed while enabled with Ctrl held and the queue not empty. */
  predicate PastePops(s: Snapshot, ev: EventType) {
    ev == KeyPress(KeyV) && s.enabled && s.ctrlPressed && s.queue != []
  }

  /**
   * One event of the global hook. `writeOk` is whether `set_clipboard` of the
   * popped record succeeded.
   */
  function KeyStep(s: Snapshot, ev: EventType, writeOk: bool): (o: KeyOutcome)
    ensures s.queue == o.popped.ToSeq() + o.state.queue
    ensures o.popped.Some? <==> PastePops(s, ev)
    ensures o.state.previousMd5 == if o.popped.Some? && writeOk then o.popped.value.md5 else s.previousMd5
    ensures o.state.enabled != s.enabled <==>
              s.ctrlPressed && (ev == KeyPress(BackQuote) || (ev == KeyPress(KeyV) && s.enabled && s.queue == []))
    ensures ev.KeyPress? && IsCtrl(ev.key) ==> o.state.ctrlPressed
    ensures ev.KeyRelease? && IsCtrl(ev.key) ==> !o.state.ctrlPressed
    ensures !((ev.KeyPress? || ev.KeyRelease?) && IsCtrl(ev.key)) ==> o.state.ctrlPressed == s.ctrlPressed
    ensures o.state.monitorRunning == s.monitorRunning
  {
    match ev
    case KeyPress(k) =>
      if IsCtrl(k) then KeyOutcome(s.(ctrlPressed := true), None)
      else if k == KeyV && s.enabled && s.ctrlPressed then
        if s.queue == [] then KeyOutcome(s.(enabled := false), None)
        else
          var head := s.queue[0];
          var md5 := if writeOk then head.md5 else s.previousMd5;
          assert s.queue == [head] + s.queue[1..];
          KeyOutcome(s.(queue := s.queue[1..], previousMd5 := md5), Some(head))
      else if k == BackQuote && s.ctrlPressed then KeyOutcome(s.(enabled := !s.enabled), None)
      else KeyOutcome(s, None)
    case KeyRelease(k) =>
      if IsCtrl(k) then KeyOutcome(s.(ctrlPressed := false), None) else KeyOutcome(s, None)
    case OtherEvent => KeyOutcome(s, None)
  }

  // ---------------------------------------------------------------------
  // The shared state as an object

  /** The statics of src/main.rs; `md5Of` is the digest function `set_raw` uses. */
  class SharedState {
    var queue: seq<ContentRecord>
    var previousMd5: Digest
    var enabled: bool
    var ctrlPressed: bool
    var monitorRunning: bool
    const md5Of: seq<Byte> -> Digest

    /** Every queued record is one the monitor captured. */
    predicate Valid()
      reads this
    {
      AllCaptured(queue, md5Of)
    }

    function View(): Snapshot
      reads this
    {
      Snapshot(queue, previousMd5, enabled, ctrlPressed, monitorRunning)
    }

    /** The `lazy_static` initial values and `CTRL_PRESSED = false`. */
    constructor (md5Of: seq<Byte> -> Digest)
      ensures View() == INITIAL && this.md5Of == md5Of && Valid()
    {
      queue := [];
      previousMd5 := ZERO_DIGEST;
      enabled := false;
      ctrlPressed := false;
      monitorRunning := true;
      this.md5Of := md5Of;
    }

    /** One pass of the monitor loop body. */
    method Tick(format: Option<U32>, rawRead: Option<seq<Byte>>, textRead: Option<string>)
      requires Valid()
      modifies this
      ensures Valid()
      ensures View() == TickStep(old(View()), md5Of, format, rawRead, textRead)
    {
      if !monitorRunning || !enabled || format.None? || rawRead.None? {
        return;
      }
      var f := format.value;
      var current := new Data(f);
      var ok := current.SetRaw(rawRead.value, md5Of);
      if !ok {
        monitorRunning := false;
        return;
      }
      if f == CF_UNICODETEXT {
        current.SetData(textRead.GetOr(""));
      } else if f == CF_TEXT {
        current.SetData(textRead.GetOr(""));
      } else if f != CF_DIB {
        return;
      }
      assert Some(current.Record()) == CaptureOf(f, rawRead.value, md5Of, textRead);
      if current.md5 != previousMd5 {
        previousMd5 := current.md5;
        queue := queue + [current.Record()];
      }
    }

    /** The hook's callback for one event; `pasted` is the record handed to `set_clipboard`. */
    method OnEvent(ev: EventType, writeOk: bool) returns (pasted: Option<ContentRecord>)
      requires Valid()
      modifies this
      ensures Valid()
      ensures View() == KeyStep(old(View()), ev, writeOk).state
      ensures pasted == KeyStep(old(View()), ev, writeOk).popped
    {
      pasted := None;
      match ev {
        case KeyPress(k) =>
          if k == ControlLeft || k == ControlRight {
            ctrlPressed := true;
          } else if k == KeyV {
            if enabled && ctrlPressed {
              if queue == [] {
                enabled := false;
              } else {
                var content := queue[0];
                queue := queue[1..];
                pasted := Some(content);
                if writeOk {
                  previousMd5 := content.md5;
                }
              }
            }
          } else if k == BackQuote {
            if ctrlPressed {
              enabled := !enabled;
            }
          }
        case KeyRelease(k) =>
          if k == ControlLeft || k == ControlRight {
            ctrlPressed := false;
          }
        case OtherEvent =>
      }
    }
  }

  // ---------------------------------------------------------------------
  // Properties of the steps

  /** A tick keeps every queued record one the monitor captured. */
  lemma TickKeepsCaptured(s: Snapshot, md5Of: seq<Byte> -> Digest, format: Option<U32>,
                          rawRead: Option<seq<Byte>>, textRead: Option<string>)
    requires AllCaptured(s.queue, md5Of)
    ensures AllCaptured(TickStep(s, md5Of, format, rawRead, textRead).queue, md5Of)
  {
    var t := TickStep(s, md5Of, format, rawRead, textRead);
    if t.queue != s.queue {
      assert t.queue == s.queue + [t.queue[|s.queue|]];
    }
  }

  /** A key event keeps every queued record one the monitor captured. */
  lemma KeyKeepsCaptured(s: Snapshot, md5Of: seq<Byte> -> Digest, ev: EventType, writeOk: bool)
    requires AllCaptured(s.queue, md5Of)
    ensures AllCaptured(KeyStep(s, ev, writeOk).state.queue, md5Of)
  {
    var o := KeyStep(s, ev, writeOk);
    forall r | r in o.state.queue
      ensures Captured(r, md5Of)
    {
      assert r in s.queue;
    }
  }

  /**
   * Duplicate suppression: reading the same bytes in the same format on two
   * consecutive ticks queues them at most once.
   */
  lemma SameContentQueuedOnce(s: Snapshot, md5Of: seq<Byte> -> Digest, format: Option<U32>,
                              rawRead: Option<seq<Byte>>, textRead: Option<string>, textRead2: Option<string>)
    ensures var t := TickStep(s, md5Of, format, rawRead, textRead);
            TickStep(t, md5Of, format, rawRead, textRead2).queue == t.queue
  {
    var t := TickStep(s, md5Of, format, rawRead, textRead);
    if t.queue != s.queue {
      assert t.previousMd5 == md5Of(rawRead.value);
    }
  }

  /**
   * No feedback loop: after Ctrl+V writes the head back to the clipboard, a
   * tick that reads those bytes in that format does not queue them again.
   */
  lemma NoRecaptureAfterPaste(s: Snapshot, md5Of: seq<Byte> -> Digest, textRead: Option<string>)
    requires AllCaptured(s.queue, md5Of)
    requires PastePops(s, KeyPress(KeyV))
    ensures var o := KeyStep(s, KeyPress(KeyV), true);
            var head := o.popped.value;
            && head == s.queue[0]
            && TickStep(o.state, md5Of, Some(head.dataType), Some(head.raw), textRead).queue == o.state.queue
  {
    assert Captured(s.queue[0], md5Of);
  }

  /** A failed write-back still consumes the head, and the digest stays as it was. */
  lemma FailedPasteLosesHead(s: Snapshot)
    requires PastePops(s, KeyPress(KeyV))
    ensures var o := KeyStep(s, KeyPress(KeyV), false);
            o.state.queue == s.queue[1..] && o.state.previousMd5 == s.previousMd5 && o.popped == Some(s.queue[0])
  {
    assert s.queue == [s.queue[0]] + s.queue[1..];
  }

  /**
   * Exhaustion turns the tool off: Ctrl+V on an empty queue disables it, and
   * any further V then changes nothing.
   */
  lemma ExhaustionDisables(s: Snapshot, writeOk: bool, writeOk2: bool)
    requires s.enabled && s.ctrlPressed && s.queue == []
    ensures var o := KeyStep(s, KeyPress(KeyV), writeOk);
            && !o.state.enabled && o.state.queue == [] && o.popped.None?
            && KeyStep(o.state, KeyPress(KeyV), writeOk2) == KeyOutcome(o.state, None)
  {
  }

  // ---------------------------------------------------------------------
  // Runs

  /** An input of the system: a monitor tick or a key event with the write-back result. */
  datatype Input =
    | MonitorTick(format: Option<U32>, rawRead: Option<seq<Byte>>, textRead: Option<string>)
    | KeyEvent(ev: EventType, writeOk: bool)

  /** A state with the records appended and the records popped on the way to it, in order. */
  datatype Trace = Trace(state: Snapshot, pushed: seq<ContentRecord>, popped: seq<ContentRecord>)

  /** One step of the system, with the record it appended or popped. */
  function Step(s: Snapshot, md5Of: seq<Byte> -> Digest, i: Input): Trace {
    match i
    case MonitorTick(format, rawRead, textRead) =>
      var n := TickStep(s, md5Of, format, rawRead, textRead);
      Trace(n, n.queue[|s.queue|..], [])
    case KeyEvent(ev, writeOk) =>
      var o := KeyStep(s, ev, writeOk);
      Trace(o.state, [], o.popped.ToSeq())
  }

  /** The transition function of the system whose digest function is `md5Of`. */
  function Transition(md5Of: seq<Byte> -> Digest): (Snapshot, Input) -> Trace {
    (s: Snapshot, i: Input) => Step(s, md5Of, i)
  }

  /** Going from `s` to `t`, the queue behaved as a FIFO queue. */
  predicate Fifo(s: Snapshot, t: Trace) {
    s.queue + t.pushed == t.popped + t.state.queue
  }

  /** One step appends at most one record at the tail and pops at most one at the head. */
  lemma StepIsFifo(s: Snapshot, md5Of: seq<Byte> -> Digest, i: Input)
    ensures var t := Step(s, md5Of, i);
            Fifo(s, t) && |t.pushed| <= 1 && |t.popped| <= 1
  {
    if i.MonitorTick? {
      var n := TickStep(s, md5Of, i.format, i.rawRead, i.textRead);
      assert n.queue == s.queue + n.queue[|s.queue|..];
    }
  }

  /** Every transition of the system is FIFO. */
  lemma TransitionIsFifo(md5Of: seq<Byte> -> Digest)
    ensures forall s: Snapshot, i: Input :: Fifo(s, Transition(md5Of)(s, i))
  {
    forall s, i
      ensures Fifo(s, Transition(md5Of)(s, i))
    {
      StepIsFifo(s, md5Of, i);
    }
  }

  /** Every transition of the system keeps every queued record one the monitor captured. */
  lemma TransitionKeepsCaptured(md5Of: seq<Byte> -> Digest)
    ensures forall s: Snapshot, i: Input :: AllCaptured(s.queue, md5Of) ==> AllCaptured(Transition(md5Of)(s, i).state.queue, md5Of)
  {
    forall s: Snapshot, i: Input | AllCaptured(s.queue, md5Of)
      ensures AllCaptured(Transition(md5Of)(s, i).state.queue, md5Of)
    {
      match i
      case MonitorTick(format, rawRead, textRead) =>
        TickKeepsCaptured(s, md5Of, format, rawRead, textRead);
      case KeyEvent(ev, writeOk) =>
        KeyKeepsCaptured(s, md5Of, ev, writeOk);
    }
  }

  /** Runs `step` over `inputs` from `s`, collecting what was appended and popped. */
  function Run(s: Snapshot, step: (Snapshot, Input) -> Trace, inputs: seq<Input>): Trace
    decreases |inputs|
  {
    if inputs == [] then Trace(s, [], [])
    else
      var first := step(s, inputs[0]);
      var rest := Run(first.state, step, inputs[1..]);
      Trace(rest.state, first.pushed + rest.pushed, first.popped + rest.popped)
  }

  /** A run of FIFO steps is FIFO. */
  lemma {:induction false} RunIsFifo(s: Snapshot, step: (Snapshot, Input) -> Trace, inputs: seq<Input>)
    requires forall s', i :: Fifo(s', step(s', i))
    ensures Fifo(s, Run(s, step, inputs))
    decreases |inputs|
  {
    if inputs != [] {
      var first := step(s, inputs[0]);
      var rest := Run(first.state, step, inputs[1..]);
      RunIsFifo(first.state, step, inputs[1..]);
      assert Fifo(s, first);
      calc {
        s.queue + (first.pushed + rest.pushed);
        (s.queue + first.pushed) + rest.pushed;
        (first.popped + first.state.queue) + rest.pushed;
        first.popped + (first.state.queue + rest.pushed);
        first.popped + (rest.popped + rest.state.queue);
        (first.popped + rest.popped) + rest.state.queue;
      }
    }
  }

  /** A property of states that every step keeps holds at the end of every run. */
  lemma {:induction false} RunKeeps(s: Snapshot, step: (Snapshot, Input) -> Trace, inputs: seq<Input>,
                                    inv: Snapshot -> bool)
    requires inv(s)
    requires forall s', i :: inv(s') ==> inv(step(s', i).state)
    ensures inv(Run(s, step, inputs).state)
    decreases |inputs|
  {
    if inputs != [] {
      RunKeeps(step(s, inputs[0]).state, step, inputs[1..], inv);
    }
  }

  /** If no step from a state satisfying `inv` appends, and `inv` is kept, a run from such a state appends nothing. */
  lemma {:induction false} RunAppendsNothing(s: Snapshot, step: (Snapshot, Input) -> Trace, inputs: seq<Input>,
                                             inv: Snapshot -> bool)
    requires inv(s)
    requires forall s', i :: inv(s') ==> inv(step(s', i).state) && step(s', i).pushed == []
    ensures Run(s, step, inputs).pushed == []
    decreases |inputs|
  {
    if inputs != [] {
      RunAppendsNothing(step(s, inputs[0]).state, step, inputs[1..], inv);
    }
  }

  /** FIFO: from start-up, Ctrl+V hands back the captured records in capture order. */
  lemma PastesInCaptureOrder(md5Of: seq<Byte> -> Digest, inputs: seq<Input>)
    ensures var t := Run(INITIAL, Transition(md5Of), inputs);
            |t.popped| <= |t.pushed| && t.popped == t.pushed[..|t.popped|]
  {
    var t := Run(INITIAL, Transition(md5Of), inputs);
    TransitionIsFifo(md5Of);
    RunIsFifo(INITIAL, Transition(md5Of), inputs);
    assert t.pushed == t.popped + t.state.queue;
  }

  /** Every run keeps every queued record one the monitor captured. */
  lemma RunKeepsCaptured(s: Snapshot, md5Of: seq<Byte> -> Digest, inputs: seq<Input>)
    requires AllCaptured(s.queue, md5Of)
    ensures AllCaptured(Run(s, Transition(md5Of), inputs).state.queue, md5Of)
  {
    TransitionKeepsCaptured(md5Of);
    RunKeeps(s, Transition(md5Of), inputs, (s': Snapshot) => AllCaptured(s'.queue, md5Of));
  }

  /** Once the monitor task has died, no run revives it and no run appends again. */
  lemma DeadMonitorStaysDead(s: Snapshot, md5Of: seq<Byte> -> Digest, inputs: seq<Input>)
    requires !s.monitorRunning
    ensures var t := Run(s, Transition(md5Of), inputs);
            !t.state.monitorRunning && t.pushed == []
  {
    var dead := (s': Snapshot) => !s'.monitorRunning;
    forall s', i | dead(s')
      ensures dead(Transition(md5Of)(s', i).state) && Transition(md5Of)(s', i).pushed == []
    {
      if i.MonitorTick? {
        assert TickStep(s', md5Of, i.format, i.rawRead, i.textRead) == s';
      }
    }
    RunKeeps(s, Transition(md5Of), inputs, dead);
    RunAppendsNothing(s, Transition(md5Of), inputs, dead);
  }

  /** Running two input sequences one after the other is running their concatenation. */
  lemma {:induction false} RunAppend(s: Snapshot, step: (Snapshot, Input) -> Trace, a: seq<Input>, b: seq<Input>)
    ensures var ta := Run(s, step, a);
            var tb := Run(ta.state, step, b);
            Run(s, step, a + b) == Trace(tb.state, ta.pushed + tb.pushed, ta.popped + tb.popped)
    decreases |a|
  {
    if a == [] {
      assert a + b == b;
    } else {
      var first := step(s, a[0]);
      var rest := Run(first.state, step, a[1..]);
      var tb := Run(rest.state, step, b);
      RunConcatFirst(s, step, a, b);
      RunAppend(first.state, step, a[1..], b);
      assert first.pushed + (rest.pushed + tb.pushed) == first.pushed + rest.pushed + tb.pushed;
      assert first.popped + (rest.popped + tb.popped) == first.popped + rest.popped + tb.popped;
    }
  }

  /** The first step of a run of `a + b`, for a non-empty `a`. */
  lemma RunConcatFirst(s: Snapshot, step: (Snapshot, Input) -> Trace, a: seq<Input>, b: seq<Input>)
    requires a != []
    ensures var first := step(s, a[0]);
            var rest := Run(first.state, step, a[1..] + b);
            Run(s, step, a + b) == Trace(rest.state, first.pushed + rest.pushed, first.popped + rest.popped)
  {
    assert (a + b)[0] == a[0] && (a + b)[1..] == a[1..] + b;
    RunFirst(s, step, a + b);
  }

  /** A non-empty run is its first step followed by the run of the rest. */
  lemma RunFirst(s: Snapshot, step: (Snapshot, Input) -> Trace, inputs: seq<Input>)
    requires inputs != []
    ensures var first := step(s, inputs[0]);
            var rest := Run(first.state, step, inputs[1..]);
            Run(s, step, inputs) == Trace(rest.state, first.pushed + rest.pushed, first.popped + rest.popped)
  {
  }

  /** A run in three parts is the three runs chained. */
  lemma RunThree(s: Snapshot, step: (Snapshot, Input) -> Trace, a: seq<Input>, b: seq<Input>, c: seq<Input>)
    ensures var ta := Run(s, step, a);
            var tb := Run(ta.state, step, b);
            var tc := Run(tb.state, step, c);
            Run(s, step, a + b + c)
            == Trace(tc.state, ta.pushed + tb.pushed + tc.pushed, ta.popped + tb.popped + tc.popped)
  {
    RunAppend(s, step, a, b);
    RunAppend(s, step, a + b, c);
  }

  /** A run that starts with input `i`. */
  lemma RunCons(s: Snapshot, step: (Snapshot, Input) -> Trace, i: Input, rest: seq<Input>)
    ensures var first := step(s, i);
            var t := Run(first.state, step, rest);
            Run(s, step, [i] + rest) == Trace(t.state, first.pushed + t.pushed, first.popped + t.popped)
  {
    assert ([i] + rest)[1..] == rest;
  }

  /**
   * A tick on text while the monitor runs and is enabled appends the text
   * record unless its digest equals the previous digest.
   */
  lemma TextTick(s: Snapshot, md5Of: seq<Byte> -> Digest, f: U32, raw: seq<Byte>, text: string)
    requires s.monitorRunning && s.enabled && IsText(f)
    ensures var r := ContentRecord(f, raw, md5Of(raw), Some(text), None);
            Step(s, md5Of, MonitorTick(Some(f), Some(raw), Some(text)))
            == if md5Of(raw) == s.previousMd5 then Trace(s, [], [])
               else Trace(s.(queue := s.queue + [r], previousMd5 := md5Of(raw)), [r], [])
  {
    var r := ContentRecord(f, raw, md5Of(raw), Some(text), None);
    assert CaptureOf(f, raw, md5Of, Some(text)) == Some(r);
    assert (s.queue + [r])[|s.queue|..] == [r];
  }

  /** Ctrl+` enables the tool, Ctrl is released again. */
  lemma EnablePhase(md5Of: seq<Byte> -> Digest)
    ensures Run(INITIAL, Transition(md5Of), [KeyEvent(KeyPress(ControlLeft), true), KeyEvent(KeyPress(BackQuote), true),
                                 KeyEvent(KeyRelease(ControlLeft), true)])
            == Trace(INITIAL.(enabled := true), [], [])
  {
    var s1 := INITIAL.(ctrlPressed := true);
    var s2 := s1.(enabled := true);
    RunCons(s2, Transition(md5Of), KeyEvent(KeyRelease(ControlLeft), true), []);
    RunCons(s1, Transition(md5Of), KeyEvent(KeyPress(BackQuote), true), [KeyEvent(KeyRelease(ControlLeft), true)]);
    RunCons(INITIAL, Transition(md5Of), KeyEvent(KeyPress(ControlLeft), true),
            [KeyEvent(KeyPress(BackQuote), true), KeyEvent(KeyRelease(ControlLeft), true)]);
  }

  /** "hello" is copied and seen twice, then "world": both are queued once, in order. */
  lemma CopyPhase(md5Of: seq<Byte> -> Digest, hello: seq<Byte>, world: seq<Byte>)
    requires md5Of(hello) != ZERO_DIGEST && md5Of(hello) != md5Of(world)
    ensures var h, w := MonitorTick(Some(CF_UNICODETEXT), Some(hello), Some("hello")),
                        MonitorTick(Some(CF_UNICODETEXT), Some(world), Some("world"));
            var hr := ContentRecord(CF_UNICODETEXT, hello, md5Of(hello), Some("hello"), None);
            var wr := ContentRecord(CF_UNICODETEXT, world, md5Of(world), Some("world"), None);
            Run(INITIAL.(enabled := true), Transition(md5Of), [h, h, w])
            == Trace(Snapshot([hr, wr], md5Of(world), true, false, true), [hr, wr], [])
  {
    var h, w := MonitorTick(Some(CF_UNICODETEXT), Some(hello), Some("hello")),
                MonitorTick(Some(CF_UNICODETEXT), Some(world), Some("world"));
    var hr := ContentRecord(CF_UNICODETEXT, hello, md5Of(hello), Some("hello"), None);
    var wr := ContentRecord(CF_UNICODETEXT, world, md5Of(world), Some("world"), None);
    var s0 := INITIAL.(enabled := true);
    var s1 := Snapshot([hr], md5Of(hello), true, false, true);
    TextTick(s0, md5Of, CF_UNICODETEXT, hello, "hello");
    assert [] + [hr] == [hr];
    TextTick(s1, md5Of, CF_UNICODETEXT, hello, "hello");
    TextTick(s1, md5Of, CF_UNICODETEXT, world, "world");
    assert [hr] + [wr] == [hr, wr];
    RunCons(s1, Transition(md5Of), w, []);
    RunCons(s1, Transition(md5Of), h, [w]);
    RunCons(s0, Transition(md5Of), h, [h, w]);
  }

  /**
   * Ctrl+V pastes "hello" (the tick that reads it back queues nothing), then
   * "world", and a third Ctrl+V finds the queue empty and disables the tool.
   */
  lemma PastePhase(md5Of: seq<Byte> -> Digest, hello: seq<Byte>, world: seq<Byte>)
    requires md5Of(hello) != md5Of(world)
    ensures var h := MonitorTick(Some(CF_UNICODETEXT), Some(hello), Some("hello"));
            var v := KeyEvent(KeyPress(KeyV), true);
            var hr := ContentRecord(CF_UNICODETEXT, hello, md5Of(hello), Some("hello"), None);
            var wr := ContentRecord(CF_UNICODETEXT, world, md5Of(world), Some("world"), None);
            Run(Snapshot([hr, wr], md5Of(world), true, false, true), Transition(md5Of),
                [KeyEvent(KeyPress(ControlRight), true), v, h, v, v])
            == Trace(Snapshot([], md5Of(world), false, true, true), [], [hr, wr])
  {
    var h := MonitorTick(Some(CF_UNICODETEXT), Some(hello), Some("hello"));
    var v := KeyEvent(KeyPress(KeyV), true);
    var hr := ContentRecord(CF_UNICODETEXT, hello, md5Of(hello), Some("hello"), None);
    var wr := ContentRecord(CF_UNICODETEXT, world, md5Of(world), Some("world"), None);
    var s0 := Snapshot([hr, wr], md5Of(world), true, false, true);
    var s1 := s0.(ctrlPressed := true);
    assert [hr, wr][1..] == [wr];
    PasteRest(md5Of, hello, world);
    RunCons(s1, Transition(md5Of), v, [h, v, v]);
    RunCons(s0, Transition(md5Of), KeyEvent(KeyPress(ControlRight), true), [v, h, v, v]);
  }

  /**
   * After "hello" is pasted, the tick that reads it back queues nothing; the
   * next Ctrl+V pastes "world" and the last one disables the tool.
   */
  lemma PasteRest(md5Of: seq<Byte> -> Digest, hello: seq<Byte>, world: seq<Byte>)
    requires md5Of(hello) != md5Of(world)
    ensures var h := MonitorTick(Some(CF_UNICODETEXT), Some(hello), Some("hello"));
            var v := KeyEvent(KeyPress(KeyV), true);
            var wr := ContentRecord(CF_UNICODETEXT, world, md5Of(world), Some("world"), None);
            Run(Snapshot([wr], md5Of(hello), true, true, true), Transition(md5Of), [h, v, v])
            == Trace(Snapshot([], md5Of(world), false, true, true), [], [wr])
  {
    var h := MonitorTick(Some(CF_UNICODETEXT), Some(hello), Some("hello"));
    var v := KeyEvent(KeyPress(KeyV), true);
    var wr := ContentRecord(CF_UNICODETEXT, world, md5Of(world), Some("world"), None);
    var s2 := Snapshot([wr], md5Of(hello), true, true, true);
    var s4 := Snapshot([], md5Of(world), true, true, true);
    TextTick(s2, md5Of, CF_UNICODETEXT, hello, "hello");
    RunCons(s4, Transition(md5Of), v, []);
    RunCons(s2, Transition(md5Of), v, [v]);
    RunCons(s2, Transition(md5Of), h, [v, v]);
  }

  /**
   * A session: Ctrl+` enables the tool; "hello" is copied (and seen twice),
   * then "world"; Ctrl+V pastes "hello", whose write-back the next tick
   * ignores; Ctrl+V pastes "world"; a third Ctrl+V finds the queue empty and
   * turns the tool off.
   */
  lemma HelloWorldSession(md5Of: seq<Byte> -> Digest, hello: seq<Byte>, world: seq<Byte>)
    requires md5Of(hello) != ZERO_DIGEST && md5Of(hello) != md5Of(world)
    ensures var h, w := MonitorTick(Some(CF_UNICODETEXT), Some(hello), Some("hello")),
                        MonitorTick(Some(CF_UNICODETEXT), Some(world), Some("world"));
            var v := KeyEvent(KeyPress(KeyV), true);
            var t := Run(INITIAL, Transition(md5Of),
                         [KeyEvent(KeyPress(ControlLeft), true), KeyEvent(KeyPress(BackQuote), true),
                          KeyEvent(KeyRelease(ControlLeft), true)]
                         + [h, h, w]
                         + [KeyEvent(KeyPress(ControlRight), true), v, h, v, v]);
            var hr := ContentRecord(CF_UNICODETEXT, hello, md5Of(hello), Some("hello"), None);
            var wr := ContentRecord(CF_UNICODETEXT, world, md5Of(world), Some("world"), None);
            && t.pushed == [hr, wr]
            && t.popped == [hr, wr]
            && t.state == Snapshot([], md5Of(world), false, true, true)
  {
    var h, w := MonitorTick(Some(CF_UNICODETEXT), Some(hello), Some("hello")),
                MonitorTick(Some(CF_UNICODETEXT), Some(world), Some("world"));
    var v := KeyEvent(KeyPress(KeyV), true);
    var enable := [KeyEvent(KeyPress(ControlLeft), true), KeyEvent(KeyPress(BackQuote), true),
                   KeyEvent(KeyRelease(ControlLeft), true)];
    var copy := [h, h, w];
    var paste := [KeyEvent(KeyPress(ControlRight), true), v, h, v, v];
    EnablePhase(md5Of);
    CopyPhase(md5Of, hello, world);
    PastePhase(md5Of, hello, world);
    RunThree(INITIAL, Transition(md5Of), enable, copy, paste);
  }
}
