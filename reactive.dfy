/** Reanimated shared values: a mutable cell whose `.value` other parts of
    the sheet read and write. */
module Reactive {

  class Shared<T> {
    var value: T

    constructor (initial: T)
      ensures value == initial
    {
      value := initial;
    }
  }
}
