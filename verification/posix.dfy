/** The two entry points of the binding, `getrlimit` and `setrlimit`
    (`node_getrlimit` / `node_setrlimit`), as functions from the script's
    arguments and the kernel state to an outcome. */
module Posix {
  import opened Wrappers
  import opened Registry
  import opened Limits
  import opened Syscalls

  /** An argument as the binding inspects it: a string, an object (seen
      through its `soft` and `hard` keys), or anything else. */
  datatype JsValue = JsString(s: string) | JsObject(soft: Field, hard: Field) | JsOther

  /** What the binding throws: a plain `Error`, a `TypeError`, or an errno
      exception naming the failed system call. */
  datatype Error =
    | Thrown(message: string)
    | ThrownType(message: string)
    | ErrnoError(syscall: string, errno: Errno)

  /** The object `getrlimit` returns. */
  datatype Reading = Reading(soft: Lim, hard: Lim)

  /** The result of a call, the kernel state after it, and the system calls
      it issued, in order. */
  datatype Outcome<T> = Outcome(result: Result<T, Error>, kernel: Kernel, trace: seq<Syscall>)

  /** `getrlimit(name)`: checks the argument, resolves the name, issues one
      `getrlimit(2)` and reports `rlim_cur` as `soft` and `rlim_max` as
      `hard`, the sentinel as null. */
  function Getrlimit(p: Platform, k: Kernel, o: Oracle, args: seq<JsValue>): (out: Outcome<Reading>)
    ensures out.kernel == k
    ensures out.result.Success? <==>
              |args| == 1 && args[0].JsString? && Resolve(p, args[0].s) >= 0
              && Resolve(p, args[0].s) in k.limits && o.getFault.None?
    ensures out.result.Success? ==>
              var cur := k.limits[Resolve(p, args[0].s)];
              out.result.value == Reading(RlimitValue(cur.cur), RlimitValue(cur.max))
    ensures out.trace != [] ==>
              |args| == 1 && args[0].JsString? && Resolve(p, args[0].s) >= 0
              && out.trace == [GetCall(Resolve(p, args[0].s))]
  {
    if |args| != 1 then
      Outcome(Failure(Thrown("getrlimit: requires exactly one argument")), k, [])
    else if !args[0].JsString? then
      Outcome(Failure(ThrownType("getrlimit: argument must be a string")), k, [])
    else
      var resource := Resolve(p, args[0].s);
      if resource < 0 then
        Outcome(Failure(Thrown("getrlimit: unknown resource name")), k, [])
      else
        match GetrlimitCall(k, resource, o.getFault)
        case Failure(e) => Outcome(Failure(ErrnoError("getrlimit", e)), k, [GetCall(resource)])
        case Success(limit) =>
          Outcome(Success(Reading(RlimitValue(limit.cur), RlimitValue(limit.max))), k, [GetCall(resource)])
  }

  /** Issues the one `setrlimit(2)` of a `setrlimit` call, after the calls
      already in `trace`. */
  function Apply(k: Kernel, o: Oracle, resource: int, limit: Rlimit, trace: seq<Syscall>): (out: Outcome<()>)
    ensures out.trace == trace + [SetCall(resource, limit)]
    ensures out.result.Success? <==> o.setFault.None? && resource in k.limits
    ensures out.result.Failure? ==> out.kernel == k
    ensures out.result.Failure? ==>
              out.result.error == ErrnoError("setrlimit", o.setFault.GetOr(EINVAL))
    ensures out.result.Success? ==> resource in k.limits && out.kernel == Kernel(k.limits[resource := limit])
  {
    match SetrlimitCall(k, resource, limit, o.setFault)
    case Failure(e) => Outcome(Failure(ErrnoError("setrlimit", e)), k, trace + [SetCall(resource, limit)])
    case Success(k') => Outcome(Success(()), k', trace + [SetCall(resource, limit)])
  }

  /** The part of `setrlimit` after the name is resolved: converts the
      supplied sides, reads the current limits only when a side is omitted
      and fills the omitted sides from them, then issues one `setrlimit(2)`
      with the merged pair. */
  function Update(k: Kernel, o: Oracle, resource: int, soft: Field, hard: Field): (out: Outcome<()>)
    ensures out.result.Failure? ==> out.kernel == k
    ensures out.result.Success? <==>
              resource in k.limits && o.setFault.None?
              && ((soft.Omitted? || hard.Omitted?) ==> o.getFault.None?)
    ensures out.result.Success? ==>
              var cur := k.limits[resource];
              out.kernel == Kernel(k.limits[resource := Rlimit(Intended(soft, cur.cur), Intended(hard, cur.max))])
    ensures var omitted := soft.Omitted? || hard.Omitted?;
            var readFails := omitted && (o.getFault.Some? || resource !in k.limits);
            var cur := if resource in k.limits then k.limits[resource] else Rlimit(0, 0);
            out.trace == (if omitted then [GetCall(resource)] else [])
                       + (if readFails then []
                          else [SetCall(resource, Rlimit(Intended(soft, cur.cur), Intended(hard, cur.max)))])
  {
    var pending := Prepare(soft, hard);
    if NeedsCurrent(pending) then
      match GetrlimitCall(k, resource, o.getFault)
      case Failure(e) => Outcome(Failure(ErrnoError("getrlimit", e)), k, [GetCall(resource)])
      case Success(current) =>
        MergeIsIntended(soft, hard, current);
        Apply(k, o, resource, Complete(pending, current), [GetCall(resource)])
    else
      var cur := if resource in k.limits then k.limits[resource] else Rlimit(0, 0);
      SettledIsIntended(soft, hard, cur);
      Apply(k, o, resource, Settled(pending), [])
  }

  /** `setrlimit(name, {soft?, hard?})`: checks the arguments, resolves the
      name, then merges and writes the limits. */
  function Setrlimit(p: Platform, k: Kernel, o: Oracle, args: seq<JsValue>): (out: Outcome<()>)
    ensures out.result.Failure? ==> out.kernel == k
    ensures out.result.Success? <==>
              |args| == 2 && args[0].JsString? && args[1].JsObject? && Resolve(p, args[0].s) >= 0
              && Resolve(p, args[0].s) in k.limits && o.setFault.None?
              && ((args[1].soft.Omitted? || args[1].hard.Omitted?) ==> o.getFault.None?)
    ensures out.result.Success? ==>
              var resource := Resolve(p, args[0].s);
              var cur := k.limits[resource];
              out.kernel == Kernel(k.limits[resource :=
                Rlimit(Intended(args[1].soft, cur.cur), Intended(args[1].hard, cur.max))])
    ensures out.trace != [] ==> |args| == 2 && args[0].JsString? && args[1].JsObject? && Resolve(p, args[0].s) >= 0
  {
    if |args| != 2 then
      Outcome(Failure(Thrown("setrlimit: requires exactly two arguments")), k, [])
    else if !args[0].JsString? then
      Outcome(Failure(ThrownType("setrlimit: argument 0 must be a string")), k, [])
    else if !args[1].JsObject? then
      Outcome(Failure(ThrownType("setrlimit: argument 1 must be an object")), k, [])
    else
      var resource := Resolve(p, args[0].s);
      if resource < 0 then
        Outcome(Failure(Thrown("setrlimit: unknown resource name")), k, [])
      else
        Update(k, o, resource, args[1].soft, args[1].hard)
  }
}
