/** The kernel's `log` backend (`kernel/src/log.rs`): records at or below
    either of two level filters are formatted and put on a bounded queue;
    `flush` drains the queue in order, writing each message to the serial
    port when its level passes the serial filter and to the console when it
    passes the console filter. The two devices are modelled as the lines
    written to them; the atomics and the once-cell are sequential state. */
module Logging {
  import opened Base

  const INIT_TWICE: string := "`crate::log::init()` called more than once"
  const ZERO_CAPACITY: string := "capacity must be non-zero"
  const PUSH_FAILED: string := "called `Result::unwrap()` on an `Err` value"
  const NOT_INITIALIZED: string := "called `Option::unwrap()` on a `None` value"

  /** `log::Level`, most severe first. */
  datatype Level = Error | Warn | Info | Debug | Trace

  /** `log::LevelFilter`: 0 is `Off`, 1 `Error` up to 5 `Trace`. */
  type LevelFilter = x: nat | x <= 5

  /** The numeric value the `log` crate compares a level by. */
  function Rank(l: Level): (r: nat)
    ensures 1 <= r <= 5
  {
    match l
    case Error => 1
    case Warn => 2
    case Info => 3
    case Debug => 4
    case Trace => 5
  }

  /** `Display` of a level. */
  function LevelName(l: Level): string
  {
    match l
    case Error => "ERROR"
    case Warn => "WARN"
    case Info => "INFO"
    case Debug => "DEBUG"
    case Trace => "TRACE"
  }

  /** `level <= filter`. */
  predicate Passes(l: Level, filter: LevelFilter)
  {
    Rank(l) <= filter
  }

  /** `Logger::enabled`. */
  predicate Enabled(l: Level, serialMax: LevelFilter, consoleMax: LevelFilter)
  {
    Passes(l, serialMax) || Passes(l, consoleMax)
  }

  /** `format!("[{}] {} - {}", level, target, args)`. */
  function Format(l: Level, target: string, args: string): string
  {
    "[" + LevelName(l) + "] " + target + " - " + args
  }

  /** A queued record: the formatted message and its level. */
  datatype Record = Record(message: string, level: Level)

  /** The messages of `queue` whose level passes `filter`, in queue order:
      what a flush writes to the device with that filter. */
  function Routed(queue: seq<Record>, filter: LevelFilter): (r: seq<string>)
    ensures |r| <= |queue|
    decreases |queue|
  {
    if queue == [] then []
    else
      var last := queue[|queue| - 1];
      Routed(queue[..|queue| - 1], filter) + (if Passes(last.level, filter) then [last.message] else [])
  }

  /** Routing a queue that is the concatenation of two is routing each. */
  lemma {:induction false} RoutedAppend(a: seq<Record>, b: seq<Record>, filter: LevelFilter)
    ensures Routed(a + b, filter) == Routed(a, filter) + Routed(b, filter)
    decreases |b|
  {
    if b == [] {
      assert a + b == a;
    } else {
      var n := |b| - 1;
      assert (a + b)[..|a + b| - 1] == a + b[..n];
      assert (a + b)[|a + b| - 1] == b[n];
      RoutedAppend(a, b[..n], filter);
    }
  }

  /** Routing one more record appends its message when it passes. */
  lemma RoutedSnoc(queue: seq<Record>, rec: Record, filter: LevelFilter)
    ensures Routed(queue + [rec], filter) == Routed(queue, filter) + (if Passes(rec.level, filter) then [rec.message] else [])
  {
    assert (queue + [rec])[..|queue|] == queue;
  }

  /** One step of the flush loop: writing record `i` when it passes. */
  lemma FlushStep(before: seq<string>, queue: seq<Record>, i: nat, filter: LevelFilter)
    requires i < |queue|
    ensures before + Routed(queue[..i + 1], filter)
      == before + Routed(queue[..i], filter) + (if Passes(queue[i].level, filter) then [queue[i].message] else [])
  {
    assert queue[..i + 1] == queue[..i] + [queue[i]];
    RoutedSnoc(queue[..i], queue[i], filter);
  }

  /** A message reaches a device exactly when some queued record with that
      message passes the device's filter. */
  lemma {:induction false} RoutedMembers(queue: seq<Record>, filter: LevelFilter, m: string)
    ensures m in Routed(queue, filter) <==> exists i :: 0 <= i < |queue| && queue[i].message == m && Passes(queue[i].level, filter)
    decreases |queue|
  {
    if queue != [] {
      var n := |queue| - 1;
      RoutedMembers(queue[..n], filter, m);
      if exists i :: 0 <= i < |queue| && queue[i].message == m && Passes(queue[i].level, filter) {
        var i :| 0 <= i < |queue| && queue[i].message == m && Passes(queue[i].level, filter);
        if i < n {
          assert queue[..n][i] == queue[i];
        }
      }
      if m in Routed(queue[..n], filter) {
        var i :| 0 <= i < n && queue[..n][i].message == m && Passes(queue[..n][i].level, filter);
        assert queue[i] == queue[..n][i];
      }
    }
  }

  /** Every queued record that `enabled` let through reaches at least one
      of the two devices when the queue is flushed. */
  lemma {:induction false} EnabledReachesADevice(queue: seq<Record>, serialMax: LevelFilter, consoleMax: LevelFilter, i: nat)
    requires i < |queue| && Enabled(queue[i].level, serialMax, consoleMax)
    ensures queue[i].message in Routed(queue, serialMax) || queue[i].message in Routed(queue, consoleMax)
  {
    RoutedMembers(queue, serialMax, queue[i].message);
    RoutedMembers(queue, consoleMax, queue[i].message);
  }

  /** The lines written so far and the records still queued. */
  datatype LogState = LogState(queue: seq<Record>, serial: seq<string>, console: seq<string>)

  /** `Logger::flush`: drain the queue in FIFO order. */
  function Flushed(s: LogState, serialMax: LevelFilter, consoleMax: LevelFilter): LogState
  {
    LogState([], s.serial + Routed(s.queue, serialMax), s.console + Routed(s.queue, consoleMax))
  }

  /** What each device will have received once everything queued is
      flushed. */
  function Eventual(s: LogState, filter: LevelFilter, device: seq<string>): seq<string>
  {
    device + Routed(s.queue, filter)
  }

  /** `Logger::log` with a queue of `capacity` records: an enabled record
      is formatted and pushed, flushing first when the queue is full; then
      the queue is flushed when `autoFlush` is on. */
  function Logged(s: LogState, serialMax: LevelFilter, consoleMax: LevelFilter, capacity: nat, autoFlush: bool,
               l: Level, target: string, args: string): Run<LogState>
  {
    var pushed :=
      if !Enabled(l, serialMax, consoleMax) then Returns(s)
      else
        var rec := Record(Format(l, target, args), l);
        if |s.queue| < capacity then Returns(s.(queue := s.queue + [rec]))
        else
          var flushed := Flushed(s, serialMax, consoleMax);
          if capacity == 0 then Panics(PUSH_FAILED)
          else Returns(flushed.(queue := [rec]));
    match pushed
    case Panics(m) => Panics(m)
    case Returns(s1) => Returns(if autoFlush then Flushed(s1, serialMax, consoleMax) else s1)
  }

  /** Nothing is lost and nothing is reordered: with a non-zero capacity,
      logging never panics, and afterwards each device has received, or
      will receive at the next flush, exactly what it would have before
      plus the new message when the record passes its filter. A record
      `enabled` refuses changes nothing but a pending auto-flush. The queue
      stays within its capacity, and is empty when auto-flush is on. */
  lemma {:induction false} LogDelivers(s: LogState, serialMax: LevelFilter, consoleMax: LevelFilter, capacity: nat, autoFlush: bool,
                                       l: Level, target: string, args: string)
    requires capacity > 0 && |s.queue| <= capacity
    ensures Logged(s, serialMax, consoleMax, capacity, autoFlush, l, target, args).Returns?
    ensures var s' := Logged(s, serialMax, consoleMax, capacity, autoFlush, l, target, args).value;
      var m := Format(l, target, args);
      && Eventual(s', serialMax, s'.serial) == Eventual(s, serialMax, s.serial) + (if Passes(l, serialMax) then [m] else [])
      && Eventual(s', consoleMax, s'.console) == Eventual(s, consoleMax, s.console) + (if Passes(l, consoleMax) then [m] else [])
      && |s'.queue| <= capacity
      && (autoFlush ==> s'.queue == [])
  {
    var rec := Record(Format(l, target, args), l);
    var s1 := PushRecord(s, serialMax, consoleMax, capacity, rec);
    assert Logged(s, serialMax, consoleMax, capacity, autoFlush, l, target, args)
      == Returns(if autoFlush then Flushed(s1, serialMax, consoleMax) else s1);
    if autoFlush {
      FlushKeeps(s1, serialMax, consoleMax);
    }
  }

  /** A flush moves messages from the queue to the devices without losing
      or reordering any, and leaves the queue empty. */
  lemma {:induction false} FlushKeeps(s: LogState, serialMax: LevelFilter, consoleMax: LevelFilter)
    ensures var f := Flushed(s, serialMax, consoleMax);
      && f.queue == []
      && Eventual(f, serialMax, f.serial) == Eventual(s, serialMax, s.serial)
      && Eventual(f, consoleMax, f.console) == Eventual(s, consoleMax, s.console)
  {
    var f := Flushed(s, serialMax, consoleMax);
    assert f.serial + [] == f.serial;
    assert f.console + [] == f.console;
  }

  /** The push half of `log`: with a non-zero capacity, the record of an
      enabled message lands at the end of the queue, after a flush when
      the queue was full; nothing is lost. */
  lemma {:induction false} PushRecord(s: LogState, serialMax: LevelFilter, consoleMax: LevelFilter, capacity: nat, rec: Record)
    returns (s1: LogState)
    requires capacity > 0 && |s.queue| <= capacity
    ensures |s1.queue| <= capacity
    ensures !Enabled(rec.level, serialMax, consoleMax) ==> s1 == s
    ensures Enabled(rec.level, serialMax, consoleMax) ==>
      if |s.queue| < capacity then s1 == s.(queue := s.queue + [rec])
      else s1 == Flushed(s, serialMax, consoleMax).(queue := [rec])
    ensures Eventual(s1, serialMax, s1.serial) == Eventual(s, serialMax, s.serial) + (if Passes(rec.level, serialMax) then [rec.message] else [])
    ensures Eventual(s1, consoleMax, s1.console) == Eventual(s, consoleMax, s.console) + (if Passes(rec.level, consoleMax) then [rec.message] else [])
  {
    if !Enabled(rec.level, serialMax, consoleMax) {
      s1 := s;
      assert Eventual(s, serialMax, s.serial) + [] == Eventual(s, serialMax, s.serial);
      assert Eventual(s, consoleMax, s.console) + [] == Eventual(s, consoleMax, s.console);
    } else if |s.queue| < capacity {
      s1 := s.(queue := s.queue + [rec]);
      RoutedAppend(s.queue, [rec], serialMax);
      RoutedAppend(s.queue, [rec], consoleMax);
      assert Routed([rec], serialMax) == Routed([], serialMax) + (if Passes(rec.level, serialMax) then [rec.message] else []);
      assert Routed([rec], consoleMax) == Routed([], consoleMax) + (if Passes(rec.level, consoleMax) then [rec.message] else []);
    } else {
      s1 := Flushed(s, serialMax, consoleMax).(queue := [rec]);
      assert Routed([rec], serialMax) == Routed([], serialMax) + (if Passes(rec.level, serialMax) then [rec.message] else []);
      assert Routed([rec], consoleMax) == Routed([], consoleMax) + (if Passes(rec.level, consoleMax) then [rec.message] else []);
    }
  }

  /** The logger behind `log::logger()`. */
  class Logger {
    const serialMax: LevelFilter
    const consoleMax: LevelFilter
    const capacity: nat
    var autoFlush: bool
    var queue: seq<Record>
    /** The lines written to the serial port. */
    var serial: seq<string>
    /** The lines written to the console. */
    var console: seq<string>

    function State(): LogState
      reads this
    {
      LogState(queue, serial, console)
    }

    /** The `Logger` built by `init`: auto-flush on, queue empty. */
    constructor (serialMax: LevelFilter, consoleMax: LevelFilter, capacity: nat)
      ensures this.serialMax == serialMax && this.consoleMax == consoleMax && this.capacity == capacity
      ensures autoFlush && queue == [] && serial == [] && console == []
    {
      this.serialMax := serialMax;
      this.consoleMax := consoleMax;
      this.capacity := capacity;
      autoFlush := true;
      queue := [];
      serial := [];
      console := [];
    }

    /** `Logger::flush`. */
    method Flush()
      modifies this
      ensures autoFlush == old(autoFlush)
      ensures State() == Flushed(old(State()), serialMax, consoleMax)
    {
      ghost var q0 := queue;
      ghost var i := 0;
      while queue != []
        invariant autoFlush == old(autoFlush)
        invariant i <= |q0| && queue == q0[i..]
        invariant serial == old(serial) + Routed(q0[..i], serialMax)
        invariant console == old(console) + Routed(q0[..i], consoleMax)
        decreases |queue|
      {
        var rec := queue[0];
        queue := queue[1..];
        FlushStep(old(serial), q0, i, serialMax);
        FlushStep(old(console), q0, i, consoleMax);
        if Passes(rec.level, serialMax) {
          serial := serial + [rec.message];
        }
        if Passes(rec.level, consoleMax) {
          console := console + [rec.message];
        }
        i := i + 1;
      }
      assert q0[..i] == q0;
    }

    /** `Logger::log`. */
    method Log(l: Level, target: string, args: string) returns (r: Run<()>)
      modifies this
      ensures autoFlush == old(autoFlush)
      ensures Outcome(r, State()) == Logged(old(State()), serialMax, consoleMax, capacity, autoFlush, l, target, args)
    {
      if Enabled(l, serialMax, consoleMax) {
        var rec := Record(Format(l, target, args), l);
        if |queue| < capacity {
          queue := queue + [rec];
        } else {
          Flush();
          if |queue| >= capacity {
            return Panics(PUSH_FAILED);
          }
          queue := queue + [rec];
          assert State() == Flushed(old(State()), serialMax, consoleMax).(queue := [rec]);
        }
      }
      if autoFlush {
        Flush();
      }
      return Returns(());
    }

    /** `set_auto_flush`. */
    method SetAutoFlush(on: bool)
      modifies this
      ensures autoFlush == on && State() == old(State())
    {
      autoFlush := on;
    }
  }

  /** The `LOGGER` once-cell together with the `log` crate's logger slot. */
  class LogGlobal {
    var logger: Option<Logger>

    constructor ()
      ensures logger.None?
    {
      logger := None;
    }

    /** `init`: the first call installs a fresh logger (a zero capacity
        makes `ArrayQueue::new` panic); any later call panics. */
    method Init(serialMax: LevelFilter, consoleMax: LevelFilter, capacity: nat) returns (r: Run<()>)
      modifies this
      ensures old(logger).Some? ==> r == Panics(INIT_TWICE) && logger == old(logger)
      ensures old(logger).None? && capacity == 0 ==> r == Panics(ZERO_CAPACITY)
      ensures old(logger).None? && capacity > 0 ==>
        && r == Returns(()) && logger.Some? && fresh(logger.value)
        && logger.value.serialMax == serialMax && logger.value.consoleMax == consoleMax
        && logger.value.capacity == capacity && logger.value.autoFlush && logger.value.queue == []
    {
      if logger.Some? {
        return Panics(INIT_TWICE);
      }
      if capacity == 0 {
        return Panics(ZERO_CAPACITY);
      }
      var installed := new Logger(serialMax, consoleMax, capacity);
      logger := Some(installed);
      return Returns(());
    }

    /** `set_auto_flush`: `LOGGER.get().unwrap()` panics before `init`. */
    method SetAutoFlush(on: bool) returns (r: Run<()>)
      modifies if logger.Some? then {logger.value} else {}
      ensures old(logger).None? ==> r == Panics(NOT_INITIALIZED)
      ensures old(logger).Some? ==>
        r == Returns(()) && logger.value.autoFlush == on && logger.value.State() == old(logger.value.State())
    {
      if logger.None? {
        return Panics(NOT_INITIALIZED);
      }
      logger.value.SetAutoFlush(on);
      return Returns(());
    }
  }
}
