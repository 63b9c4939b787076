/**
 * Tracking the system clipboard: reading and writing snapshots with
 * retries, and turning the OS's change notifications into StateChanged
 * events, suppressing the echo of the application's own writes, repeats
 * of the remembered snapshot, and reads overtaken by a later notification.
 *
 * The clipboard itself is outside the model: each read or write is given
 * as the outcomes of its successive attempts.
 */
module ClipboardManagers {
  import opened Wrappers
  import opened NetUtils
  import opened BlockCompression
  import opened ClipboardStates
  import opened ClipboardParser
  import opened Dispatchers

  /** Retries of every clipboard operation. */
  const RetryCount := 10

  /**
   * The state to announce when a read started as update `updateId`
   * completes with `read`: none when the read failed, when it weakly equals
   * the remembered snapshot, or when a later notification has arrived. A
   * current, successful read is announced exactly when nothing is
   * remembered or the remembered snapshot does not weakly equal it, and
   * reading back the remembered snapshot is never announced again.
   */
  function UpdateResult(c: Codec, remembered: Option<ClipboardState>, lastUpdateId: Int32, updateId: Int32,
                        read: Result<ClipboardState>): (r: Option<ClipboardState>)
    ensures r.Some? <==> read.Ok? && updateId == lastUpdateId
                         && (remembered.None? || !WeakEquals(c, remembered.value, read.value))
    ensures r.Some? ==> r.value == read.value
    ensures read.Ok? && remembered == Some(read.value) ==> r.None?
  {
    if read.Err? then None
    else
      WeakEqualsReflexive(c, read.value);
      if remembered.Some? && WeakEquals(c, remembered.value, read.value) then None
      else if updateId != lastUpdateId then None
      else Some(read.value)
  }

  class ClipboardManager {
    const codec: Codec
    /** Set while the application's own write is expected to be reported back. */
    var ignoreNextUpdate: bool
    /** Number of notifications that started a read, as a wrapping C# `int`. */
    var lastUpdateId: Int32
    /** The target of the weak reference to the current snapshot, while it is alive. */
    var currentState: Option<ClipboardState>
    /** The snapshots announced through StateChanged, in order. */
    var stateChanged: seq<ClipboardState>
    /** The snapshots written to the OS clipboard, in order. */
    var written: seq<ClipboardState>

    constructor (codec: Codec)
      ensures this.codec == codec && !ignoreNextUpdate && lastUpdateId == 0
      ensures currentState == None && stateChanged == [] && written == []
    {
      this.codec := codec;
      ignoreNextUpdate := false;
      lastUpdateId := 0;
      currentState := None;
      stateChanged := [];
      written := [];
    }

    /** The collector reclaims the remembered snapshot. */
    method Collect()
      modifies this
      ensures currentState == None
      ensures ignoreNextUpdate == old(ignoreNextUpdate) && lastUpdateId == old(lastUpdateId)
      ensures stateChanged == old(stateChanged) && written == old(written)
    {
      currentState := None;
    }

    /**
     * GetStateAsync: the remembered snapshot when it is still alive,
     * otherwise a retried read. A successful result is remembered.
     */
    method GetState(read: nat -> Result<ClipboardState>) returns (r: Result<ClipboardState>)
      modifies this
      ensures old(currentState).Some? ==> r == Ok(old(currentState).value)
      ensures old(currentState).None? ==> r == Retried(read, RetryCount)
      ensures currentState == if r.Ok? then Some(r.value) else old(currentState)
      ensures ignoreNextUpdate == old(ignoreNextUpdate) && lastUpdateId == old(lastUpdateId)
      ensures stateChanged == old(stateChanged) && written == old(written)
    {
      match currentState {
        case Some(s) =>
          r := Ok(s);
        case None =>
          var runs;
          r, runs := RetryOnError(read, RetryCount);
          if r.Err? {
            return;
          }
      }
      currentState := Some(r.value);
    }

    /**
     * SetStateAsync: remembers the current snapshot, marks the coming
     * notification as the application's own, and writes `state` with
     * retries. When the write fails, the remembered snapshot is written back
     * with retries and the write's exception is raised; an exception of that
     * rollback escapes in its place. After a successful write the new
     * snapshot is remembered.
     */
    method SetState(state: ClipboardState, read: nat -> Result<ClipboardState>, write: nat -> Outcome,
                    rollback: nat -> Outcome) returns (r: Outcome)
      modifies this
      ensures stateChanged == old(stateChanged) && lastUpdateId == old(lastUpdateId)
      ensures var prev := if old(currentState).Some? then Ok(old(currentState).value) else Retried(read, RetryCount);
              var wrote := RetriedAction(write, RetryCount);
              var undone := RetriedAction(rollback, RetryCount);
              && (prev.Err? ==> r == Fail(prev.error) && ignoreNextUpdate == old(ignoreNextUpdate)
                                && currentState == old(currentState) && written == old(written))
              && (prev.Ok? ==> ignoreNextUpdate)
              && (prev.Ok? && wrote.Pass? ==> r == Pass && currentState == Some(state) && written == old(written) + [state])
              && (prev.Ok? && wrote.Fail? && undone.Pass? ==>
                    r == wrote && currentState == Some(prev.value) && written == old(written) + [prev.value])
              && (prev.Ok? && wrote.Fail? && undone.Fail? ==>
                    r == undone && currentState == Some(prev.value) && written == old(written))
    {
      var prev := GetState(read);
      if prev.Err? {
        return Fail(prev.error);
      }
      ignoreNextUpdate := true;
      var result, runs := RetryOnErrorAction(write, RetryCount);
      if result.Fail? {
        var undo, undoRuns := RetryOnErrorAction(rollback, RetryCount);
        if undo.Fail? {
          return undo;
        }
        written := written + [prev.value];
        return result;
      }
      written := written + [state];
      currentState := Some(state);
      return Pass;
    }

    /** IgnoreNextUpdate: the next notification is the application's own. */
    method IgnoreNextUpdate()
      modifies this
      ensures ignoreNextUpdate
      ensures lastUpdateId == old(lastUpdateId) && currentState == old(currentState)
      ensures stateChanged == old(stateChanged) && written == old(written)
    {
      ignoreNextUpdate := true;
    }

    /**
     * The synchronous start of the notification handler: an expected
     * notification only clears the flag; any other takes the next update
     * id and starts a read.
     */
    method BeginUpdate() returns (started: bool, updateId: Int32)
      modifies this
      ensures started <==> !old(ignoreNextUpdate)
      ensures !ignoreNextUpdate
      ensures started ==> lastUpdateId == Wrap32(old(lastUpdateId) + 1) && updateId == lastUpdateId
      ensures !started ==> lastUpdateId == old(lastUpdateId)
      ensures currentState == old(currentState) && stateChanged == old(stateChanged) && written == old(written)
    {
      if ignoreNextUpdate {
        ignoreNextUpdate := false;
        return false, lastUpdateId;
      }
      lastUpdateId := Wrap32(lastUpdateId + 1);
      return true, lastUpdateId;
    }

    /**
     * The continuation of the handler once the read of update `updateId`
     * is done: the retried read, or when it fails one more read `fallback`;
     * a failure of that read is logged and ends the handler. The result is
     * announced and remembered only as UpdateResult says.
     */
    method CompleteUpdate(updateId: Int32, read: nat -> Result<ClipboardState>, fallback: Result<ClipboardState>)
      returns (emitted: bool)
      modifies this
      ensures var got := if Retried(read, RetryCount).Ok? then Retried(read, RetryCount) else fallback;
              var announced := UpdateResult(codec, old(currentState), old(lastUpdateId), updateId, got);
              && (emitted <==> announced.Some?)
              && (emitted ==> stateChanged == old(stateChanged) + [announced.value] && currentState == announced)
              && (!emitted ==> stateChanged == old(stateChanged) && currentState == old(currentState))
      ensures ignoreNextUpdate == old(ignoreNextUpdate) && lastUpdateId == old(lastUpdateId) && written == old(written)
    {
      var newState, runs := RetryOnError(read, RetryCount);
      if newState.Err? {
        newState := fallback;
        if newState.Err? {
          return false;
        }
      }
      if currentState.Some? && WeakEquals(codec, currentState.value, newState.value) {
        return false;
      }
      if updateId != lastUpdateId {
        return false;
      }
      currentState := Some(newState.value);
      stateChanged := stateChanged + [newState.value];
      return true;
    }
  }

  /**
   * Two notifications in a row: the read started by the first completes
   * after the second arrived and is dropped, whatever it read.
   */
  method OvertakenRead(codec: Codec, read: nat -> Result<ClipboardState>, fallback: Result<ClipboardState>)
    returns (emitted: bool)
    ensures !emitted
  {
    var manager := new ClipboardManager(codec);
    var started1, first := manager.BeginUpdate();
    var started2, second := manager.BeginUpdate();
    emitted := manager.CompleteUpdate(first, read, fallback);
  }

  /**
   * The application's own write is not reported: after SetState succeeds,
   * the next notification starts no read.
   */
  method OwnWriteIsIgnored(codec: Codec, state: ClipboardState, read: nat -> Result<ClipboardState>,
                           write: nat -> Outcome, rollback: nat -> Outcome)
    returns (started: bool)
    ensures write(0).Pass? && read(0).Ok? ==> !started
  {
    var manager := new ClipboardManager(codec);
    var r := manager.SetState(state, read, write, rollback);
    var id;
    started, id := manager.BeginUpdate();
  }
}
