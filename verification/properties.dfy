/** Guarantees of the `getrlimit` / `setrlimit` pair that involve argument
    checking, name resolution and the read-merge-write path together. */
module Properties {
  import opened Wrappers
  import opened Registry
  import opened Limits
  import opened Syscalls
  import opened Posix

  /** `getrlimit` with the wrong number of arguments, or a non-string,
      throws before any system call. */
  lemma GetrlimitShapeErrors(p: Platform, k: Kernel, o: Oracle, args: seq<JsValue>)
    ensures |args| != 1 ==>
      Getrlimit(p, k, o, args) == Outcome(Failure(Thrown("getrlimit: requires exactly one argument")), k, [])
    ensures |args| == 1 && !args[0].JsString? ==>
      Getrlimit(p, k, o, args) == Outcome(Failure(ThrownType("getrlimit: argument must be a string")), k, [])
  {
  }

  /** `setrlimit` needs exactly a string and then an object; anything else
      throws before any system call. */
  lemma SetrlimitShapeErrors(p: Platform, k: Kernel, o: Oracle, args: seq<JsValue>)
    ensures |args| != 2 ==>
      Setrlimit(p, k, o, args) == Outcome(Failure(Thrown("setrlimit: requires exactly two arguments")), k, [])
    ensures |args| == 2 && !args[0].JsString? ==>
      Setrlimit(p, k, o, args) == Outcome(Failure(ThrownType("setrlimit: argument 0 must be a string")), k, [])
    ensures |args| == 2 && args[0].JsString? && !args[1].JsObject? ==>
      Setrlimit(p, k, o, args) == Outcome(Failure(ThrownType("setrlimit: argument 1 must be an object")), k, [])
  {
  }

  /** A name the platform does not know fails with "unknown resource name"
      in both entry points, before any system call. */
  lemma UnknownNameFailsFirst(p: Platform, k: Kernel, o: Oracle, name: string, soft: Field, hard: Field)
    requires CName(name) !in KnownNames(p)
    ensures Getrlimit(p, k, o, [JsString(name)])
         == Outcome(Failure(Thrown("getrlimit: unknown resource name")), k, [])
    ensures Setrlimit(p, k, o, [JsString(name), JsObject(soft, hard)])
         == Outcome(Failure(Thrown("setrlimit: unknown resource name")), k, [])
  {
  }

  /** A known name is resolved and queried; the reading reflects the
      kernel's pair for that resource. */
  lemma GetrlimitKnownName(p: Platform, k: Kernel, o: Oracle, name: string)
    requires CName(name) in KnownNames(p)
    ensures var out := Getrlimit(p, k, o, [JsString(name)]);
            var resource := RESOURCE_IDS[CName(name)];
            && out.trace == [GetCall(resource)]
            && (out.result.Success? <==> resource in k.limits && o.getFault.None?)
            && (o.getFault.Some? ==> out.result == Failure(ErrnoError("getrlimit", o.getFault.value)))
  {
  }

  /** `setrlimit(name, {})` reads the current pair and writes it back
      unchanged: whatever the kernel answers, the limits stay as they were. */
  lemma SetrlimitOmittedIsNoOp(p: Platform, k: Kernel, o: Oracle, name: string)
    ensures Setrlimit(p, k, o, [JsString(name), JsObject(Omitted, Omitted)]).kernel == k
    ensures var out := Setrlimit(p, k, o, [JsString(name), JsObject(Omitted, Omitted)]);
            out.result.Success? ==>
              var resource := Resolve(p, name);
              out.trace == [GetCall(resource), SetCall(resource, k.limits[resource])]
  {
    var out := Setrlimit(p, k, o, [JsString(name), JsObject(Omitted, Omitted)]);
    if out.result.Success? {
      var resource := Resolve(p, name);
      assert k.limits[resource := k.limits[resource]] == k.limits;
    }
  }

  /** Changing only the soft limit leaves the hard limit, and every other
      resource, as it was. */
  lemma SetrlimitSoftOnly(p: Platform, k: Kernel, o: Oracle, name: string, v: Input)
    ensures var out := Setrlimit(p, k, o, [JsString(name), JsObject(Supplied(v), Omitted)]);
            out.result.Success? ==>
              var resource := Resolve(p, name);
              && out.kernel.limits.Keys == k.limits.Keys
              && out.kernel.limits[resource] == Rlimit(ToRlim(v), k.limits[resource].max)
              && forall x | x in k.limits && x != resource :: out.kernel.limits[x] == k.limits[x]
  {
  }

  /** Changing only the hard limit leaves the soft limit, and every other
      resource, as it was. */
  lemma SetrlimitHardOnly(p: Platform, k: Kernel, o: Oracle, name: string, v: Input)
    ensures var out := Setrlimit(p, k, o, [JsString(name), JsObject(Omitted, Supplied(v))]);
            out.result.Success? ==>
              var resource := Resolve(p, name);
              && out.kernel.limits.Keys == k.limits.Keys
              && out.kernel.limits[resource] == Rlimit(k.limits[resource].cur, ToRlim(v))
              && forall x | x in k.limits && x != resource :: out.kernel.limits[x] == k.limits[x]
  {
  }

  /** When a side is omitted and the read for it fails, the call reports
      the `getrlimit` errno and never issues `setrlimit`. */
  lemma SetrlimitAbortsOnFailedRead(p: Platform, k: Kernel, o: Oracle, name: string, soft: Field, hard: Field)
    requires CName(name) in KnownNames(p)
    requires soft.Omitted? || hard.Omitted?
    requires o.getFault.Some?
    ensures Setrlimit(p, k, o, [JsString(name), JsObject(soft, hard)])
         == Outcome(Failure(ErrnoError("getrlimit", o.getFault.value)), k,
                    [GetCall(RESOURCE_IDS[CName(name)])])
  {
  }

  /** When both sides are supplied no read happens: the converted pair goes
      straight to `setrlimit`. */
  lemma SetrlimitFullSkipsRead(p: Platform, k: Kernel, o: Oracle, name: string, soft: Input, hard: Input)
    requires CName(name) in KnownNames(p)
    ensures Setrlimit(p, k, o, [JsString(name), JsObject(Supplied(soft), Supplied(hard))]).trace
         == [SetCall(RESOURCE_IDS[CName(name)], Rlimit(ToRlim(soft), ToRlim(hard)))]
  {
  }

  /** Writing back exactly what `getrlimit` reported succeeds whenever the
      kernel answers both calls, and changes nothing. */
  lemma GetThenSetIsNoOp(p: Platform, k: Kernel, o1: Oracle, o2: Oracle, name: string)
    requires CName(name) in KnownNames(p) && RESOURCE_IDS[CName(name)] in k.limits
    requires Echoable(RlimitValue(k.limits[RESOURCE_IDS[CName(name)]].cur))
    requires Echoable(RlimitValue(k.limits[RESOURCE_IDS[CName(name)]].max))
    requires o1.getFault.None? && o2.setFault.None?
    ensures Getrlimit(p, k, o1, [JsString(name)]).result.Success?
    ensures var r := Getrlimit(p, k, o1, [JsString(name)]).result.value;
            Echoable(r.soft) && Echoable(r.hard)
            && var out := Setrlimit(p, k, o2, [JsString(name), JsObject(Supplied(Echo(r.soft)), Supplied(Echo(r.hard)))]);
               out.result.Success? && out.kernel == k
  {
    var resource := Resolve(p, name);
    var cur := k.limits[resource];
    var r := Getrlimit(p, k, o1, [JsString(name)]).result.value;
    assert r == Reading(RlimitValue(cur.cur), RlimitValue(cur.max));
    ReadThenWrite(cur.cur);
    ReadThenWrite(cur.max);
    var soft, hard := Supplied(Echo(r.soft)), Supplied(Echo(r.hard));
    assert Intended(soft, cur.cur) == cur.cur && Intended(hard, cur.max) == cur.max;
    assert k.limits[resource := cur] == k.limits;
  }

  /** When the kernel accepts both calls, `setrlimit(name, {soft: null})`
      succeeds and a later `getrlimit(name)` reports the soft limit as null
      and the hard limit as before. */
  lemma SetUnlimitedSoftThenGet(p: Platform, k: Kernel, o1: Oracle, o2: Oracle, name: string)
    requires CName(name) in KnownNames(p) && RESOURCE_IDS[CName(name)] in k.limits
    requires o1.getFault.None? && o1.setFault.None? && o2.getFault.None?
    ensures var out := Setrlimit(p, k, o1, [JsString(name), JsObject(Supplied(Null), Omitted)]);
            var before := Getrlimit(p, k, o2, [JsString(name)]);
            var after := Getrlimit(p, out.kernel, o2, [JsString(name)]);
            && out.result.Success?
            && before.result.Success? && after.result.Success?
            && after.result.value.soft == Infinity
            && after.result.value.hard == before.result.value.hard
  {
  }

  /** When the kernel refuses the write, the call throws the `setrlimit`
      errno after issuing the read (only if a side was omitted) and the one
      write of the merged pair, and changes nothing. */
  lemma SetrlimitRefusedWrite(p: Platform, k: Kernel, o: Oracle, name: string, soft: Field, hard: Field)
    requires CName(name) in KnownNames(p) && RESOURCE_IDS[CName(name)] in k.limits
    requires o.getFault.None? && o.setFault.Some?
    ensures var resource := RESOURCE_IDS[CName(name)];
            var cur := k.limits[resource];
            var read := if soft.Omitted? || hard.Omitted? then [GetCall(resource)] else [];
            Setrlimit(p, k, o, [JsString(name), JsObject(soft, hard)])
              == Outcome(Failure(ErrnoError("setrlimit", o.setFault.value)), k,
                         read + [SetCall(resource, Rlimit(Intended(soft, cur.cur), Intended(hard, cur.max)))])
  {
    var resource := RESOURCE_IDS[CName(name)];
    MergeIsIntended(soft, hard, k.limits[resource]);
    if soft.Supplied? && hard.Supplied? {
      SettledIsIntended(soft, hard, k.limits[resource]);
    }
  }

  /** The system calls of a `setrlimit` call come in source order: at most
      one read, issued first and only when a side is omitted, and at most
      one write, issued last. */
  lemma SetrlimitCallOrder(p: Platform, k: Kernel, o: Oracle, args: seq<JsValue>)
    ensures var out := Setrlimit(p, k, o, args);
            && |out.trace| <= 2
            && (forall i | 0 <= i < |out.trace| :: out.trace[i].GetCall? ==>
                  i == 0 && |args| == 2 && args[1].JsObject?
                  && (args[1].soft.Omitted? || args[1].hard.Omitted?))
            && (forall i | 0 <= i < |out.trace| :: out.trace[i].SetCall? ==> i == |out.trace| - 1)
  {
    var out := Setrlimit(p, k, o, args);
    if out.trace != [] {
      UpdateCallOrder(k, o, Resolve(p, args[0].s), args[1].soft, args[1].hard);
    }
  }

  /** Helper for `SetrlimitCallOrder`: the same order for the update step. */
  lemma UpdateCallOrder(k: Kernel, o: Oracle, resource: int, soft: Field, hard: Field)
    ensures var out := Update(k, o, resource, soft, hard);
            && |out.trace| <= 2
            && (forall i | 0 <= i < |out.trace| :: out.trace[i].GetCall? ==>
                  i == 0 && (soft.Omitted? || hard.Omitted?))
            && (forall i | 0 <= i < |out.trace| :: out.trace[i].SetCall? ==> i == |out.trace| - 1)
  {
  }

  /** A failed `setrlimit` leaves every later reading as it was. */
  lemma FailedSetLeavesReadings(p: Platform, k: Kernel, o1: Oracle, o2: Oracle, args: seq<JsValue>, query: seq<JsValue>)
    requires Setrlimit(p, k, o1, args).result.Failure?
    ensures Getrlimit(p, Setrlimit(p, k, o1, args).kernel, o2, query) == Getrlimit(p, k, o2, query)
  {
  }
}
