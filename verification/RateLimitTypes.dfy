/** What the grading service's rate limiters share (pkg/ratelimit). */
module RateLimitTypes {

  datatype Action = Login | Register {
    function Name(): string {
      match this
      case Login => "login"
      case Register => "register"
    }
  }

  datatype RateLimit = RateLimit(maxAttempts: int, window: int)

  datatype Limits = Limits(login: RateLimit, register: RateLimit) {
    function Of(action: Action): RateLimit {
      if action.Login? then login else register
    }
  }

  /** A limiter's answer; Panics stands for the index error on an empty attempt list. */
  datatype Verdict = Allowed | Denied(retryAfter: int) | Panics
}
