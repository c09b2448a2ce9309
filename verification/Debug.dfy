/** The kernel's ASSERT and PANIC: both end in a spin loop with interrupts off, so a call either
    returns a value or never returns. */
module Debug {
  datatype Run<+T> = Done(value: T) | Halted
}
