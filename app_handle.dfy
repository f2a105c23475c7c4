/**
 * The write-once slot that publishes the application handle to code
 * running outside the UI thread (`init_app_handle` and `get_app_handle`,
 * src-tauri/src/main.rs), with the `started` flag beside it.
 *
 * Only the sequential meaning is modelled: the slot is filled at most once
 * and the flag, once set, stays set. The mutex around the handle, the
 * condition variable and its blocking waiters are left out.
 */
module AppHandle {
  import opened Wrappers

  /** A write-once handle slot (`HANDLE`) and its readiness flag (`HANDLE_CONDVAR`'s boolean). */
  class HandlePublisher<H> {
    var slot: Option<H>
    var started: bool

    /**
     * `init_app_handle` fills the slot and then sets the flag, two separate
     * steps; with calls taken one at a time the two always agree.
     */
    ghost predicate Valid()
      reads this
    {
      started <==> slot.Some?
    }

    /** Before startup: no handle and not ready. */
    constructor ()
      ensures Valid()
      ensures slot == None && !started
    {
      slot := None;
      started := false;
    }

    /**
     * Installs `handle` unless a handle is already there (`get_or_init`),
     * then sets the ready flag.
     */
    method InitAppHandle(handle: H)
      requires Valid()
      modifies this
      ensures Valid()
      ensures slot == if old(slot).None? then Some(handle) else old(slot)
      ensures started
    {
      if slot.None? {
        slot := Some(handle);
      }
      started := true;
    }

    /** The published handle; reading before publication is a caller error. */
    method GetAppHandle() returns (handle: H)
      requires slot.Some?
      ensures slot == Some(handle)
    {
      handle := slot.value;
    }

    /**
     * A reader that waited until the ready flag was set: the flag guarantees
     * a published handle, so the read cannot fail.
     */
    method GetWhenReady() returns (handle: H)
      requires Valid() && started
      ensures slot == Some(handle)
    {
      handle := GetAppHandle();
    }
  }

  /** Publishing twice keeps the first handle, and the flag is set once both calls are done. */
  method PublishTwice<H>(first: H, second: H) returns (handle: H, ready: bool)
    ensures handle == first
    ensures ready
  {
    var publisher := new HandlePublisher<H>();
    publisher.InitAppHandle(first);
    publisher.InitAppHandle(second);
    handle := publisher.GetAppHandle();
    ready := publisher.started;
  }
}
