/** What the surroundings may do to the running process. */
module Processes {

  class Process {
    var mortal: bool    // it may end between any two of its steps: killed, or by a failing file or ledger
    var flaky: bool     // it may lose the target

    constructor () {
    }

    /** Another process takes over, in surroundings of its own. */
    method Begin()
      modifies this
    {
      mortal, flaky := *, *;
    }

    /** One step of the process: only a mortal one may end here. */
    method Lives() returns (alive: bool)
      ensures alive || mortal
    {
      alive := *;
      alive := alive || !mortal;
    }
  }
}
