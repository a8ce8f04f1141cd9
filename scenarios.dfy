/** The absent-key check that closes the `DMapGetPut` scenario
    (plans/standalone/dmap.go): after the bulk writes, a read of a key that
    was never written must come back "not found". */
module Scenarios {
  import opened Base

  /** The error side of a DMap `Get`. */
  datatype GetError = ErrKeyNotFound | OtherError(msg: GoString)

  /** The check as written: it records a failure when the read reports
      `ErrKeyNotFound`, i.e. exactly when the store behaves correctly. */
  function AbsentKeyFailsAsWritten(getErr: Option<GetError>): (fails: bool)
    ensures fails <==> getErr == Some(ErrKeyNotFound)
  {
    match getErr
    case Some(ErrKeyNotFound) => true
    case _ => false
  }

  /** The store answering correctly is flagged, and a store that finds a value
      for a key never written passes. */
  lemma AbsentKeyCheckInverted()
    ensures AbsentKeyFailsAsWritten(Some(ErrKeyNotFound))
    ensures !AbsentKeyFailsAsWritten(None)
  {
  }

  /** The intended check: anything but `ErrKeyNotFound` is a failure. */
  function AbsentKeyFails(getErr: Option<GetError>): (fails: bool)
    ensures !fails <==> getErr == Some(ErrKeyNotFound)
    ensures fails <==> !AbsentKeyFailsAsWritten(getErr)
  {
    getErr != Some(ErrKeyNotFound)
  }
}
