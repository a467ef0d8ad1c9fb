/** `EnrollmentSession._set_next_status`, shared by the OTA, DEP and user sessions. */
module EnrollmentSessions {

  class EnrollmentSession<S> {
    var state: S

    constructor (state: S)
      ensures this.state == state
    {
      this.state := state;
    }

    /** The status and the attributes change together if the test holds. */
    method SetNextStatus(next: S, test: bool) returns (ok: bool)
      modifies this
      ensures ok == test && state == if test then next else old(state)
    {
      ok := test;
      if test {
        state := next;
      }
    }
  }
}
