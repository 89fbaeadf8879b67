/**
 * The observers of the settings form. The form keeps them in a list in the
 * order they were added; the list functions it uses are in Sequences.
 */
module Listeners {

  /** A registered observer; it takes note of each change event it receives. */
  class ChangeListener {
    var received: nat

    constructor ()
      ensures received == 0
    {
      received := 0;
    }

    /** stateChanged: one more change event has arrived. */
    method StateChanged()
      modifies this
      ensures received == old(received) + 1
    {
      received := received + 1;
    }
  }
}
