/**
 The part of an XInput device event that the touch tables look at, and the
 outcome of handling one. Both programs (charade.c and gesture.c) dispatch on
 the same three touch event types.
 */
module TouchEvents {

  datatype EventType = TouchBegin | TouchUpdate | TouchEnd | OtherEvent(code: int)

  /** `detail` is the touch id; `x` and `y` are the event coordinates. */
  datatype Event = Event(evtype: EventType, detail: int, x: real, y: real)

  /** Handling either yields the next table or hits one of the source's
      `assert` calls, which ends the process. */
  datatype Step<T> = Next(table: T) | Abort
}
