/** The kernel behind `getrlimit(2)` and `setrlimit(2)`, abstracted to a
    table of limit pairs plus a fault oracle that decides whether a call
    fails. Which calls fail (privilege, soft above hard, ...) is the
    kernel's business and is left to the oracle. */
module Syscalls {
  import opened Wrappers
  import opened Limits

  /** An `errno` value; failures always carry a positive one. */
  type Errno = e: int | e > 0 witness 22

  /** What the kernel reports for a resource id it does not know. */
  const EINVAL: Errno := 22

  /** The per-process limit table. */
  datatype Kernel = Kernel(limits: map<int, Rlimit>)

  /** A call into the kernel, as recorded in a trace. */
  datatype Syscall = GetCall(resource: int) | SetCall(resource: int, limit: Rlimit)

  /** Whether the (at most one) `getrlimit` and `setrlimit` of an operation
      fail, and with which errno. */
  datatype Oracle = Oracle(getFault: Option<Errno>, setFault: Option<Errno>)

  /** `getrlimit(2)`: a pure query. */
  function GetrlimitCall(k: Kernel, resource: int, fault: Option<Errno>): (r: Result<Rlimit, Errno>)
    ensures r.Success? <==> fault.None? && resource in k.limits
    ensures r.Success? ==> r.value == k.limits[resource]
    ensures fault.Some? ==> r == Failure(fault.value)
  {
    if fault.Some? then Failure(fault.value)
    else if resource !in k.limits then Failure(EINVAL)
    else Success(k.limits[resource])
  }

  /** `setrlimit(2)`: on success the pair replaces the resource's limits and
      nothing else changes; on failure nothing changes. */
  function SetrlimitCall(k: Kernel, resource: int, limit: Rlimit, fault: Option<Errno>): (r: Result<Kernel, Errno>)
    ensures r.Success? <==> fault.None? && resource in k.limits
    ensures r.Success? ==> r.value.limits.Keys == k.limits.Keys
    ensures r.Success? ==> r.value.limits[resource] == limit
    ensures r.Success? ==> forall x | x in k.limits && x != resource :: r.value.limits[x] == k.limits[x]
    ensures fault.Some? ==> r == Failure(fault.value)
  {
    if fault.Some? then Failure(fault.value)
    else if resource !in k.limits then Failure(EINVAL)
    else Success(Kernel(k.limits[resource := limit]))
  }
}
