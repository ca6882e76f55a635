/** Limit values on both sides of the binding: the kernel's `rlim_t` with
    its RLIM_INFINITY sentinel, the script-side number-or-null, and the
    partial soft/hard update that `setrlimit` accepts. */
module Limits {
  import opened Wrappers

  /** Number of distinct `rlim_t` values (a 64-bit unsigned integer). */
  const RLIM_T_MODULUS: int := 0x1_0000_0000_0000_0000

  /** A value of C type `rlim_t`. */
  type RlimT = x: int | 0 <= x < RLIM_T_MODULUS

  /** The kernel's "no limit" sentinel, `~0UL` on Linux. */
  const RLIM_INFINITY: RlimT := 0xFFFF_FFFF_FFFF_FFFF

  /** Bound of the C type `int64_t`. */
  const INT64_LIMIT: int := 0x8000_0000_0000_0000

  /** A value of C type `int64_t`, what `Integer::Value()` returns. */
  type Int64 = x: int | -INT64_LIMIT <= x < INT64_LIMIT

  /** `struct rlimit`: the soft (`rlim_cur`) and hard (`rlim_max`) limit. */
  datatype Rlimit = Rlimit(cur: RlimT, max: RlimT)

  /** A limit as `getrlimit` reports it: `null` (no limit) or a number. */
  datatype Lim = Infinity | Finite(n: nat)

  /** A present `soft` or `hard` value as `setrlimit` reads it: `null`, or a
      number already coerced to the 64-bit signed integer the source stores. */
  datatype Input = Null | Number(n: Int64)

  /** One side of a `setrlimit` argument: the key is absent, or present with
      a value. */
  datatype Field = Omitted | Supplied(v: Input)

  /** `rlimit_value`: the sentinel reads as null, every other value as the
      number itself. */
  function RlimitValue(raw: RlimT): (l: Lim)
    ensures l == Infinity <==> raw == RLIM_INFINITY
    ensures l.Finite? ==> l.n == raw && l.n < RLIM_INFINITY
  {
    if raw == RLIM_INFINITY then Infinity else Finite(raw)
  }

  /** The write-path conversion: null becomes the sentinel; a number is
      assigned to `rlim_t`, which C does modulo 2^64, so a negative number
      lands 2^64 above itself. */
  function ToRlim(v: Input): (raw: RlimT)
    ensures v == Null ==> raw == RLIM_INFINITY
    ensures v.Number? ==> (raw - v.n) % RLIM_T_MODULUS == 0
    ensures v.Number? && v.n >= 0 ==> raw == v.n
    ensures v.Number? && v.n < 0 ==> raw == v.n + RLIM_T_MODULUS
  {
    match v
    case Null => RLIM_INFINITY
    case Number(n) => n % RLIM_T_MODULUS
  }

  /** Whether a script can pass a reading back unchanged: null, or a number
      that fits in `int64_t`. */
  predicate Echoable(l: Lim) {
    l.Infinity? || l.n < INT64_LIMIT
  }

  /** The value a script passes back when it writes what it read. */
  function Echo(l: Lim): (v: Input)
    requires Echoable(l)
    ensures ToRlim(v) == (if l.Infinity? then RLIM_INFINITY else l.n)
  {
    match l
    case Infinity => Null
    case Finite(n) => Number(n)
  }

  /** Reading a kernel value and writing the same script value back gives
      the same kernel value, the sentinel included. */
  lemma ReadThenWrite(raw: RlimT)
    requires Echoable(RlimitValue(raw))
    ensures ToRlim(Echo(RlimitValue(raw))) == raw
  {
  }

  /** Writing null or a non-negative number and reading it back gives the
      same script value. */
  lemma WriteThenRead(v: Input)
    requires v.Number? ==> v.n >= 0
    ensures RlimitValue(ToRlim(v)) == (if v.Null? then Infinity else Finite(v.n))
  {
  }

  /** Among 64-bit numbers exactly -1 wraps to the sentinel, so it is
      stored as "no limit" and reads back as null. */
  lemma OnlyMinusOneMeansNoLimit(n: Int64)
    ensures ToRlim(Number(n)) == RLIM_INFINITY <==> n == -1
    ensures n == -1 ==> RlimitValue(ToRlim(Number(n))) == Infinity
  {
  }

  /** The limit pair `setrlimit` assembles before it knows whether it needs
      the current values: `None` is a side still to be filled
      (`get_soft` / `get_hard` in the source). */
  datatype Pending = Pending(cur: Option<RlimT>, max: Option<RlimT>)

  /** Fills the pending sides from the current limits. */
  function Complete(p: Pending, current: Rlimit): (r: Rlimit)
    ensures p.cur.Some? ==> r.cur == p.cur.value
    ensures p.max.Some? ==> r.max == p.max.value
    ensures p.cur.None? ==> r.cur == current.cur
    ensures p.max.None? ==> r.max == current.max
  {
    Rlimit(p.cur.GetOr(current.cur), p.max.GetOr(current.max))
  }

  /** Whether the current limits must be read: exactly when the completed
      pair depends on them. */
  predicate NeedsCurrent(p: Pending): (b: bool)
    ensures b <==> exists c1: Rlimit, c2: Rlimit :: Complete(p, c1) != Complete(p, c2)
  {
    var b := p.cur.None? || p.max.None?;
    assert b ==> Complete(p, Rlimit(0, 0)) != Complete(p, Rlimit(1, 1));
    b
  }

  /** The pair when nothing is pending: whatever the current limits are,
      completing it gives this pair. */
  function Settled(p: Pending): (r: Rlimit)
    requires !NeedsCurrent(p)
    ensures forall current: Rlimit :: Complete(p, current) == r
  {
    Rlimit(p.cur.value, p.max.value)
  }

  /** Converts the supplied sides and marks the omitted ones. */
  function Prepare(soft: Field, hard: Field): (p: Pending)
    ensures p.cur.None? <==> soft.Omitted?
    ensures p.max.None? <==> hard.Omitted?
    ensures NeedsCurrent(p) <==> soft.Omitted? || hard.Omitted?
  {
    Pending(
      if soft.Supplied? then Some(ToRlim(soft.v)) else None,
      if hard.Supplied? then Some(ToRlim(hard.v)) else None)
  }

  /** What one side is meant to become: the supplied value, converted, or
      the current value when the side is omitted. */
  function Intended(f: Field, current: RlimT): (raw: RlimT)
    ensures f.Omitted? ==> raw == current
    ensures f == Supplied(Null) ==> raw == RLIM_INFINITY
    ensures f.Supplied? && f.v.Number? && f.v.n >= 0 ==> raw == f.v.n
  {
    match f
    case Omitted => current
    case Supplied(v) => ToRlim(v)
  }

  /** The prepare-then-complete merge gives every side its intended value:
      supplied sides pass through as given, omitted sides keep the current
      value, never zero and never the sentinel unless it was current. */
  lemma MergeIsIntended(soft: Field, hard: Field, current: Rlimit)
    ensures Complete(Prepare(soft, hard), current)
         == Rlimit(Intended(soft, current.cur), Intended(hard, current.max))
  {
  }

  /** When both sides are supplied the current limits do not matter, so
      skipping the read loses nothing. */
  lemma SettledIsIntended(soft: Field, hard: Field, current: Rlimit)
    requires soft.Supplied? && hard.Supplied?
    ensures !NeedsCurrent(Prepare(soft, hard))
    ensures Settled(Prepare(soft, hard))
         == Rlimit(Intended(soft, current.cur), Intended(hard, current.max))
  {
  }

  /** Omitting both sides reproduces the current pair. */
  lemma MergeOmittedIsCurrent(current: Rlimit)
    ensures NeedsCurrent(Prepare(Omitted, Omitted))
    ensures Complete(Prepare(Omitted, Omitted), current) == current
  {
  }

  /** Supplying back what was read reproduces the pair that was read. */
  lemma MergeOfReadingIsCurrent(current: Rlimit)
    requires Echoable(RlimitValue(current.cur)) && Echoable(RlimitValue(current.max))
    ensures !NeedsCurrent(Prepare(Supplied(Echo(RlimitValue(current.cur))), Supplied(Echo(RlimitValue(current.max)))))
    ensures Settled(Prepare(Supplied(Echo(RlimitValue(current.cur))), Supplied(Echo(RlimitValue(current.max)))))
         == current
  {
  }
}
