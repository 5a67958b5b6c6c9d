/**
 Status words and the results of card operations.

 The card reports a failure by aborting the command with an ISO/IEC 7816-4
 status word (`ReturnSW` / `APDU_ReturnSW`). Here such an abort is an error
 value: an operation either succeeds or fails with the status word it would
 have sent.
 */
module Status {

  /** The two status words the core aborts with. */
  datatype StatusWord = WrongData | SecurityStatusNotSatisfied
  {
    /** The two-byte code of the status word, as ISO/IEC 7816-4 assigns it. */
    function Code(): (sw: nat)
      ensures sw < 0x1_0000
      ensures sw / 0x100 == 0x6A || sw / 0x100 == 0x69
    {
      match this
      case WrongData => 0x6A80
      case SecurityStatusNotSatisfied => 0x6982
    }
  }

  /** Distinct failures are reported with distinct codes. */
  lemma CodesDistinct(a: StatusWord, b: StatusWord)
    ensures a.Code() == b.Code() <==> a == b
  {
  }

  /** The outcome of a command that returns nothing on success. */
  datatype Outcome = Pass | Fail(sw: StatusWord)

  /** The outcome of a command that returns a value on success. */
  datatype Result<+T> = Success(value: T) | Failure(sw: StatusWord)
}
