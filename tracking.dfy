/** The tracking service: a two-state machine that captures a start instant and turns it into an
    entry when tracking stops. The wall clock is the `now` argument of each operation. */
module Tracking {
  import opened Wrappers
  import opened Timestamps
  import opened Records
  import TimeSpanExtension

  /** `TrackingServiceException` with its message. */
  datatype TrackingServiceException = TrackingServiceException(message: string)

  const NoStartTime := TrackingServiceException("Cannot return tracking start time - tracking has not started.")
  const AlreadyStarted := TrackingServiceException("Tracking has already started.")
  const NotStarted := TrackingServiceException("Tracking was not started.")

  class TrackingService {
    /** `Tracking`. */
    var tracking: bool
    /** `_startTime`: meaningful only while tracking. */
    var startTime: DateTimeOffset

    /** A new service is not tracking; `_startTime` holds its default value. */
    constructor()
      ensures !tracking && startTime == MinValue
    {
      tracking := false;
      startTime := MinValue;
    }

    /** The `StartTime` getter: the captured instant while tracking, an exception otherwise. */
    method GetStartTime() returns (r: Result<DateTimeOffset, TrackingServiceException>)
      ensures tracking ==> r == Ok(startTime)
      ensures !tracking ==> r == Err(NoStartTime)
    {
      if !tracking {
        return Err(NoStartTime);
      }
      return Ok(startTime);
    }

    /** `Start()`: refused while tracking, with nothing changed; otherwise tracking starts at
        `now`, which is returned. */
    method Start(now: DateTimeOffset) returns (r: Result<DateTimeOffset, TrackingServiceException>)
      modifies this
      ensures old(tracking) ==> r == Err(AlreadyStarted) && tracking && startTime == old(startTime)
      ensures !old(tracking) ==> r == Ok(now) && tracking && startTime == now
    {
      if tracking {
        return Err(AlreadyStarted);
      }
      tracking := true;
      startTime := now;
      return Ok(startTime);
    }

    /** `Stop()`: refused when not tracking, with nothing changed; otherwise tracking ends and
        the entry from the captured start to `now`, without category, is returned. */
    method Stop(now: DateTimeOffset) returns (r: Result<TimeTrackerData, TrackingServiceException>)
      modifies this
      ensures startTime == old(startTime) && !tracking
      ensures !old(tracking) ==> r == Err(NotStarted)
      ensures old(tracking) ==> r == Ok(TimeTrackerData(old(startTime), now, None))
    {
      if !tracking {
        return Err(NotStarted);
      }
      tracking := false;
      return Ok(TimeTrackerData(startTime, now, None));
    }

    /** The `Elapsed` getter: the display of the time from the captured start to `now`. */
    method Elapsed(now: DateTimeOffset) returns (r: Result<string, TrackingServiceException>)
      ensures !tracking ==> r == Err(NotStarted)
      ensures tracking ==> r == Ok(TimeSpanExtension.Format(Subtract(now, startTime)))
    {
      if !tracking {
        return Err(NotStarted);
      }
      var timeSpan := Subtract(now, startTime);
      return Ok(TimeSpanExtension.Format(timeSpan));
    }
  }

  /** A client session on one service: a stop before any start is refused, a start is accepted,
      a second start is refused, the stop yields an entry from the first start to the stop instant
      whose elapsed time is not negative when the clock does not run backwards, and the service
      can then be started again. */
  method Session(t0: DateTimeOffset, t1: DateTimeOffset, t2: DateTimeOffset, t3: DateTimeOffset)
    returns (entry: TimeTrackerData)
    requires UtcTicks(t0) <= UtcTicks(t2)
    ensures entry == TimeTrackerData(t0, t2, None)
    ensures GetTimeElapsed(entry) >= 0
  {
    var service := new TrackingService();
    var early := service.Stop(t0);
    assert early == Err(NotStarted);
    var started := service.Start(t0);
    assert started == Ok(t0);
    var again := service.Start(t1);
    assert again == Err(AlreadyStarted) && service.startTime == t0;
    var stopped := service.Stop(t2);
    entry := stopped.value;
    var restarted := service.Start(t3);
    assert restarted == Ok(t3) && service.tracking;
  }
}
