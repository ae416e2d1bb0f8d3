/** Small shared vocabulary: optional values, the status messages every variant prints, and the
    actions performed on a mutex. */
module Base {

  datatype Option<T> = None | Some(value: T)

  /** The five status lines a philosopher prints ("has taken a fork", "is eating", "is sleeping",
      "is thinking", "died"); both headers define the same five texts. */
  datatype Msg = TookFork | StartedEating | StartedSleeping | StartedThinking | Died

  /** One pthread_mutex_lock or pthread_mutex_unlock call on the mutex identified by `m`
      (a fork index, or a mutex address modelled as an integer). */
  datatype LockAction = Lock(m: int) | Unlock(m: int)

  const INT_MAX: int := 0x7fff_ffff
  const INT_MIN: int := -0x8000_0000
  const LLONG_MAX: int := 0x7fff_ffff_ffff_ffff

  /** C's integer division, which truncates toward zero (Dafny's `/` is Euclidean). */
  function CDiv(a: int, b: int): (q: int)
    requires b > 0
    ensures a >= 0 ==> q == a / b
    ensures a < 0 ==> q == -((-a) / b)
  {
    if a >= 0 then a / b else -((-a) / b)
  }
}
