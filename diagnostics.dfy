// The diagnostics collaborator: an error log gated by a mode, per-category
// memory counters with a peak watermark, and the Result wrapper used for
// fallible operations. The process-wide singleton and its mutex become one
// ordinary sequential object.

module Diagnostics {

  /** How serious a logged problem is. */
  datatype ErrorSeverity = Warning | Error | Fatal

  /** One logged problem: severity, machine-readable code, message, context. */
  datatype ErrorInfo = ErrorInfo(severity: ErrorSeverity, code: string, message: string, context: string)

  /** What the context records: nothing, errors, errors and timings, or everything. */
  datatype Mode = Disabled | ErrorsOnly | ErrorsAndProfiling | FullDiagnostics

  /** Memory counters of one allocation category. The record is held by
      value in the context's category map, so each update yields the new
      record. */
  datatype MemoryInfo = MemoryInfo(name: string, allocatedBytes: nat, peakBytes: nat, allocationCount: nat)
  {
    /** The peak never lies below the bytes currently allocated. */
    predicate PeakCovers()
    {
      peakBytes >= allocatedBytes
    }

    /** `recordAllocation`: the bytes and the count grow, and the peak
        becomes the larger of the old peak and the new total. */
    function RecordAllocation(bytes: nat): (m: MemoryInfo)
      ensures m.name == name && m.allocationCount == allocationCount + 1
      ensures m.allocatedBytes == allocatedBytes + bytes
      ensures m.peakBytes >= peakBytes && m.peakBytes >= m.allocatedBytes
      ensures m.peakBytes == peakBytes || m.peakBytes == m.allocatedBytes
    {
      var total := allocatedBytes + bytes;
      MemoryInfo(name, total, if peakBytes >= total then peakBytes else total, allocationCount + 1)
    }

    /** `recordDeallocation`: subtract, saturating at zero; the peak and
        the allocation count stay. */
    function RecordDeallocation(bytes: nat): (m: MemoryInfo)
      ensures m.name == name && m.peakBytes == peakBytes && m.allocationCount == allocationCount
      ensures m.allocatedBytes <= allocatedBytes
      ensures bytes <= allocatedBytes ==> m.allocatedBytes + bytes == allocatedBytes
      ensures bytes > allocatedBytes ==> m.allocatedBytes == 0
    {
      this.(allocatedBytes := if bytes > allocatedBytes then 0 else allocatedBytes - bytes)
    }
  }

  /** A fresh category: everything zero. */
  function NewMemoryInfo(name: string): (m: MemoryInfo)
    ensures m.name == name && m.PeakCovers()
    ensures m.allocatedBytes == 0 && m.peakBytes == 0 && m.allocationCount == 0
  {
    MemoryInfo(name, 0, 0, 0)
  }

  /** One memory event of a category. */
  datatype MemoryEvent = Allocate(bytes: nat) | Deallocate(bytes: nat)

  /** The counters after a sequence of events, oldest first. */
  function Replay(m: MemoryInfo, events: seq<MemoryEvent>): MemoryInfo
    decreases |events|
  {
    if events == [] then m
    else
      var m' := Replay(m, events[..|events| - 1]);
      match events[|events| - 1]
      case Allocate(b) => m'.RecordAllocation(b)
      case Deallocate(b) => m'.RecordDeallocation(b)
  }

  /** Whatever the events, the peak covers the current total and never
      falls below where it started. */
  lemma {:induction false} ReplayKeepsPeak(m: MemoryInfo, events: seq<MemoryEvent>)
    requires m.PeakCovers()
    ensures Replay(m, events).PeakCovers()
    ensures Replay(m, events).peakBytes >= m.peakBytes
    ensures Replay(m, events).name == m.name
    decreases |events|
  {
    if events != [] {
      ReplayKeepsPeak(m, events[..|events| - 1]);
    }
  }

  /** Optional value of the wrapper below. */
  datatype Maybe<T> = Nothing | Just(value: T)

  /** `Result<T>`: an optional value and an optional error. The factories
      set exactly one of them. */
  datatype Result<T> = Result(held: Maybe<T>, failure: Maybe<ErrorInfo>)
  {
    predicate IsOk() { held.Just? }

    predicate IsError() { failure.Just? }

    /** `valueOr`: the held value when there is one, otherwise `default`. */
    function ValueOr(default: T): (v: T)
      ensures IsOk() ==> v == held.value
      ensures !IsOk() ==> v == default
    {
      match held
      case Just(x) => x
      case Nothing => default
    }
  }

  /** `Result::success`. */
  function Success<T>(v: T): (r: Result<T>)
    ensures r.IsOk() && !r.IsError() && r.held.value == v
  {
    Result(Just(v), Nothing)
  }

  /** `Result::error`. */
  function Failure<T>(severity: ErrorSeverity, code: string, message: string, context: string): (r: Result<T>)
    ensures r.IsError() && !r.IsOk()
    ensures r.failure.value == ErrorInfo(severity, code, message, context)
  {
    Result(Nothing, Just(ErrorInfo(severity, code, message, context)))
  }

  /** The diagnostics context: the mode, the error log and the memory
      counters by category. */
  class Context {
    var mode: Mode
    var errors: seq<ErrorInfo>
    var memoryTracking: map<string, MemoryInfo>

    /** Every category's peak covers its current total. */
    ghost predicate Valid()
      reads this
    {
      forall c | c in memoryTracking :: memoryTracking[c].PeakCovers()
    }

    /** The context starts disabled, with nothing recorded. */
    constructor ()
      ensures Valid()
      ensures mode == Disabled && errors == [] && memoryTracking == map[]
    {
      mode := Disabled;
      errors := [];
      memoryTracking := map[];
    }

    /** `enable(mode)`: only the mode changes. */
    method Enable(m: Mode)
      modifies this
      ensures mode == m && IsEnabled() == (m != Disabled)
      ensures errors == old(errors) && memoryTracking == old(memoryTracking)
    {
      mode := m;
    }

    /** `disable()`: only the mode changes. */
    method Disable()
      modifies this
      ensures mode == Disabled && !IsEnabled()
      ensures errors == old(errors) && memoryTracking == old(memoryTracking)
    {
      mode := Disabled;
    }

    predicate IsEnabled()
      reads this
    {
      mode != Disabled
    }

    /** `addError`: one record is appended unless diagnostics are disabled. */
    method AddError(severity: ErrorSeverity, code: string, message: string, context: string)
      modifies this
      ensures mode == old(mode) && memoryTracking == old(memoryTracking)
      ensures old(mode) == Disabled ==> errors == old(errors)
      ensures old(mode) != Disabled ==> errors == old(errors) + [ErrorInfo(severity, code, message, context)]
    {
      if mode == Disabled {
        return;
      }
      errors := errors + [ErrorInfo(severity, code, message, context)];
    }

    /** `hasErrors`: any record at all, warnings included. */
    function HasErrors(): (b: bool)
      reads this
      ensures b <==> errors != []
      ensures (exists i | 0 <= i < |errors| :: errors[i].severity == Warning) ==> b
    {
      |errors| > 0
    }

    /** `hasWarnings`: scan the log for a warning. */
    method HasWarnings() returns (b: bool)
      ensures b <==> exists i | 0 <= i < |errors| :: errors[i].severity == Warning
    {
      var i := 0;
      while i < |errors|
        invariant 0 <= i <= |errors|
        invariant forall j | 0 <= j < i :: errors[j].severity != Warning
      {
        if errors[i].severity == Warning {
          return true;
        }
        i := i + 1;
      }
      return false;
    }

    /** `hasFatalErrors`: scan the log for a fatal error. */
    method HasFatalErrors() returns (b: bool)
      ensures b <==> exists i | 0 <= i < |errors| :: errors[i].severity == Fatal
    {
      var i := 0;
      while i < |errors|
        invariant 0 <= i <= |errors|
        invariant forall j | 0 <= j < i :: errors[j].severity != Fatal
      {
        if errors[i].severity == Fatal {
          return true;
        }
        i := i + 1;
      }
      return false;
    }

    /** `getLastError`: nothing on an empty log, else the newest record. */
    function GetLastError(): (r: Maybe<ErrorInfo>)
      reads this
      ensures r.Nothing? <==> errors == []
      ensures r.Just? ==> r.value in errors && errors == errors[..|errors| - 1] + [r.value]
    {
      if |errors| == 0 then Nothing else Just(errors[|errors| - 1])
    }

    /** `clear`: the log and the counters are emptied; the mode stays. */
    method Clear()
      modifies this
      ensures Valid()
      ensures errors == [] && memoryTracking == map[] && mode == old(mode)
    {
      errors := [];
      memoryTracking := map[];
    }

    /** `recordAllocation(category, bytes)`: only with full diagnostics;
        an unknown category is created, named, and then charged. */
    method RecordAllocation(category: string, bytes: nat)
      requires Valid()
      modifies this
      ensures Valid() && mode == old(mode) && errors == old(errors)
      ensures old(mode) != FullDiagnostics ==> memoryTracking == old(memoryTracking)
      ensures old(mode) == FullDiagnostics ==>
                var was := if category in old(memoryTracking) then old(memoryTracking)[category]
                           else NewMemoryInfo("");
                var named := if was.name == "" then was.(name := category) else was;
                memoryTracking == old(memoryTracking)[category := named.RecordAllocation(bytes)]
    {
      if mode != FullDiagnostics {
        return;
      }
      var mem := if category in memoryTracking then memoryTracking[category] else NewMemoryInfo("");
      if mem.name == "" {
        mem := mem.(name := category);
      }
      memoryTracking := memoryTracking[category := mem.RecordAllocation(bytes)];
    }

    /** `recordDeallocation(category, bytes)`: only with full diagnostics,
        and unknown categories are ignored. */
    method RecordDeallocation(category: string, bytes: nat)
      requires Valid()
      modifies this
      ensures Valid() && mode == old(mode) && errors == old(errors)
      ensures old(mode) != FullDiagnostics || category !in old(memoryTracking) ==>
                memoryTracking == old(memoryTracking)
      ensures old(mode) == FullDiagnostics && category in old(memoryTracking) ==>
                memoryTracking == old(memoryTracking)[category := old(memoryTracking)[category].RecordDeallocation(bytes)]
    {
      if mode != FullDiagnostics {
        return;
      }
      if category in memoryTracking {
        memoryTracking := memoryTracking[category := memoryTracking[category].RecordDeallocation(bytes)];
      }
    }
  }
}
