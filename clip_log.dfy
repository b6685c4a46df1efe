/** The clipper's audit trail: the execution timer and the immutable log
    entries it reads times into. */
module ClipLog {
  import opened Wrappers
  import opened Geo

  /** `ExecutionTimer`: remembers when it was started or last reset. Wall
      clock readings (`time.time()`) are passed in as `now`. */
  class ExecutionTimer {
    var startTime: real

    constructor (now: real)
      ensures startTime == now
    {
      startTime := now;
    }

    /** Time since creation or the last reset. */
    method GetRunningTime(now: real) returns (t: real)
      ensures t == now - startTime
    {
      t := now - startTime;
    }

    method Reset(now: real)
      modifies this
      ensures startTime == now
    {
      startTime := now;
    }
  }

  /** The clock readings one `clip` or `clip_and_project` call takes: when
      its timer starts, when the clip step's time is read, when the timer is
      reset, and when the save step's time is read. */
  datatype Clock = Clock(start: real, clipped: real, reset: real, saved: real)

  /** One step's outcome: its message, the invalid rows it ignored (None for
      a save step), and how long it took. */
  datatype LogEntry = LogEntry(resultMessage: string, ignoredValues: Option<Frame>, executionTime: real)

  const ExecutionTimeLabel: string := "\nExecution Time: "
  const IgnoredLabel: string := "\nIgnored (invalid) Values:\n"

  /** `__repr__`: the message, then the ignored rows when there are any, then
      the execution time. `showFrame` and `showTime` stand for `str()` of a
      data frame and of a float. */
  function Repr(entry: LogEntry, showFrame: Frame -> string, showTime: real -> string): string
  {
    if entry.ignoredValues.None? || |entry.ignoredValues.value.rows| == 0 then
      entry.resultMessage + ExecutionTimeLabel + showTime(entry.executionTime)
    else
      entry.resultMessage + IgnoredLabel + showFrame(entry.ignoredValues.value)
        + ExecutionTimeLabel + showTime(entry.executionTime)
  }

  /** The printed entry starts with its message and ends with its time; the
      ignored-values section follows the message exactly when some rows were
      ignored. */
  lemma ReprSections(entry: LogEntry, showFrame: Frame -> string, showTime: real -> string)
    ensures var s := Repr(entry, showFrame, showTime);
            var tail := ExecutionTimeLabel + showTime(entry.executionTime);
            var head := entry.resultMessage + IgnoredLabel;
            && |entry.resultMessage| < |s| && s[..|entry.resultMessage|] == entry.resultMessage
            && |tail| <= |s| && s[|s| - |tail|..] == tail
            && ((|head| <= |s| && s[..|head|] == head)
                <==> (entry.ignoredValues.Some? && |entry.ignoredValues.value.rows| > 0))
  {
    var s := Repr(entry, showFrame, showTime);
    var m := entry.resultMessage;
    var tail := ExecutionTimeLabel + showTime(entry.executionTime);
    var head := m + IgnoredLabel;
    if entry.ignoredValues.None? || |entry.ignoredValues.value.rows| == 0 {
      assert s == m + tail;
      assert s[|m| + 1] == 'E' && head[|m| + 1] == 'I';
    } else {
      assert s == head + showFrame(entry.ignoredValues.value) + tail;
    }
  }
}
