/**
 * `IoLimiter` of `src/io_limiter.rs`: the earlier name of the limiter in
 * `src/limiter.rs`, with the same fields and the same read, write and
 * pass-through logic, line for line. It is that class under its own name.
 */
module IoLimiter {
  import Limiter

  type IoLimiter = Limiter.Limiter
}
