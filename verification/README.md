# node-setrlimit in Dafny

A model of the native core of `node-setrlimit`, a Node.js binding that exposes
the POSIX `getrlimit`/`setrlimit` calls to scripts. The core, `src/posix.cc`,
has three parts, each modelled here:

- **the resource-name table** (`rlimit_name_to_res`) and the linear scan that
  resolves a script-supplied name to a kernel resource id (module `Registry`);
- **the sentinel translation** between the kernel's `RLIM_INFINITY` and the
  script's `null`, and the partial soft/hard update merged with the current
  limits (module `Limits`);
- **the two entry points** `getrlimit(name)` and `setrlimit(name, {soft?, hard?})`,
  with their argument checks, their error messages and the
  read-then-merge-then-write path of `setrlimit` (module `Posix`), over an
  abstract kernel (module `Syscalls`).

The kernel is a map from resource id to `struct rlimit`. Whether each system
call succeeds is decided by a fault oracle passed in. A call on an id the map
lacks fails with `EINVAL`. Each entry point returns an `Outcome`: the script
result or thrown error, the kernel after the call, and the trace of system
calls it issued. The trace is what lets the model state "no system call before
the lookup", "the current limits are read only when a side is omitted" and
"`setrlimit(2)` is never issued after a failed read". Cross-call guarantees
are in module `Properties`.

Modelling choices:
- The build platform is a `Platform(hasNproc, hasAs)` value. It stands for
  whether `RLIMIT_NPROC` and `RLIMIT_AS` are defined. Each table row carries
  its `#ifdef` as a `Guard`.
- Resource ids use Linux's numbering. `RLIM_INFINITY` is Linux's `~0UL`, and
  `rlim_t` is a 64-bit unsigned integer.
- A value read back is a `Lim`: null or a natural number. A value supplied to
  `setrlimit` is an `Input`: null or the `int64_t` that `Integer::Value()`
  returned for it. Storing that into `rlim_t` wraps modulo 2^64, as C does.

Where the code and the library's documentation differ, the model follows the
code:
- The documentation lists eight names; the table also holds `memlock` and
  `rss`, ten in all.
- Name matching is `strcmp` on the UTF-8 copy of the argument. It stops at the
  first NUL, so `"core\0junk"` resolves as `"core"` (`Registry.CName`,
  `Registry.ResolveStopsAtNul`).
- On the write path, among `int64_t` values exactly `-1` wraps to the
  sentinel, so it is stored as "no limit" and reads back as `null`
  (`Limits.OnlyMinusOneMeansNoLimit`).

## Model

| member | source | states |
|---|---|---|
| Registry.Select | src/posix.cc:21-37 | the rows the preprocessor keeps: their names are exactly the names of the rows enabled on the platform, and every (name, id) pair kept is a pair of some row |
| Registry.SelectKeepsNames | src/posix.cc:21-37 | when the rows' names are pairwise distinct, so are the kept names |
| Registry.SelectResourcesFrom | src/posix.cc:21-37 | every kept id is the id of some row |
| Registry.SelectKeepsResources | src/posix.cc:21-37 | when the rows' ids are pairwise distinct, so are the kept ids |
| Registry.SourceRowsNamesDistinct | src/posix.cc:22-36 | the ten rows carry ten different names |
| Registry.SourceRowsIdsDistinct | src/posix.cc:22-36 | the ten rows carry ten different, non-negative ids |
| Registry.TableNames | src/posix.cc:21-37 | the table holds exactly core, cpu, data, fsize, nofile, memlock, rss and stack, plus nproc and as only when the platform defines them, each name once |
| Registry.TableIds | src/posix.cc:21-37 | the table's ids are pairwise distinct and non-negative, and each is the id its name stands for |
| Registry.CName | src/posix.cc:60-64 | the name strcmp compares is the longest NUL-free prefix of the argument |
| Registry.Lookup | src/posix.cc:61-68 | the id of the first row whose name equals the input, and -1 when no row matches |
| Registry.LookupScan | src/posix.cc:63-68 | the for-loop with break (repeated at lines 102-107) computes the same first-match result as Lookup |
| Registry.LookupAnyMatch | src/posix.cc:63-68 | with pairwise distinct names, the first match is any match |
| Registry.LookupTable | src/posix.cc:63-68 | the scan over the platform's table finds a name iff the platform knows it, and then yields the id that name stands for |
| Registry.Resolve | src/posix.cc:60-72 | a name resolves iff its C string is a known name of the platform, to that name's id; otherwise the result is -1, so the `resource < 0` test means exactly "unknown" |
| Registry.ResolveIsCaseSensitive | src/posix.cc:64 | an illustration of Resolve's contract: "NOFILE" is not found, matching is case-sensitive |
| Registry.ResolveStopsAtNul | src/posix.cc:60-64 | a name with an embedded NUL resolves as its part before the NUL |
| Limits.RlimitValue | src/posix.cc:40-46 | the result is null exactly for RLIM_INFINITY; every other value reads as itself |
| Limits.ToRlim | src/posix.cc:119-122 | null is stored as RLIM_INFINITY; an int64 is stored modulo 2^64: unchanged when non-negative, 2^64 above itself when negative |
| Limits.ReadThenWrite | src/posix.cc:40-46 | converting a kernel value to the script and back gives the same value, sentinel included, whenever the number fits in int64 |
| Limits.WriteThenRead | src/posix.cc:129-132 | null and every non-negative int64 survive a write followed by a read |
| Limits.OnlyMinusOneMeansNoLimit | src/posix.cc:122 | among int64 values exactly -1 is stored as RLIM_INFINITY, and it reads back as null |
| Limits.Prepare | src/posix.cc:117-136 | a side is pending (get_soft / get_hard) exactly when its key is absent, and the current limits are needed exactly when a key is absent |
| Limits.NeedsCurrent | src/posix.cc:138 | the read is needed exactly when the completed pair depends on the current limits |
| Limits.Complete | src/posix.cc:144-145 | a supplied side keeps its converted value; a pending side takes the current value |
| Limits.Settled | src/posix.cc:116-136 | with nothing pending the pair is what completion would give for any current limits |
| Limits.Intended | src/posix.cc:144-145 | an omitted side takes the current value; a supplied null takes RLIM_INFINITY |
| Limits.MergeIsIntended | src/posix.cc:138-146 | filling the pending sides from the current pair gives each side its intended value: supplied sides as given, omitted sides as current |
| Limits.SettledIsIntended | src/posix.cc:117-138 | with both sides supplied nothing is pending and the pair is the intended one whatever the current limits are |
| Limits.MergeOmittedIsCurrent | src/posix.cc:138-146 | with both sides omitted the merged pair is the current pair |
| Limits.MergeOfReadingIsCurrent | src/posix.cc:117-136 | supplying back the values just read reproduces the pair that was read |
| Posix.Getrlimit | src/posix.cc:48-83 | the kernel never changes; success iff one string argument naming a known resource and the query succeeds; the reading reports rlim_cur as soft and rlim_max as hard; the only system call is one getrlimit on the resolved id, after the checks |
| Posix.Apply | src/posix.cc:148-152 | one setrlimit call is appended to the trace; it succeeds iff the kernel accepts the write; on success only the resource's pair is replaced; on failure the kernel is unchanged and the call throws the setrlimit errno |
| Posix.Setrlimit | src/posix.cc:85-153 | a failed call leaves the kernel unchanged; success iff the arguments are a string and an object, the name is known, the kernel accepts the write and, when a side is omitted, the read; on success the resource's pair becomes the intended one (supplied sides as given, omitted sides as they were); no system call is issued unless the arguments pass the checks and the name resolves |
| Posix.Update | src/posix.cc:113-150 | after resolution: fails without changing the kernel, or succeeds iff the kernel accepts the write and, when a side is omitted, the read; on success the pair is the intended one; the calls are exactly one getrlimit when a side is omitted, then one setrlimit with the merged pair unless that read failed |
| Properties.GetrlimitShapeErrors | src/posix.cc:51-57 | the wrong argument count and a non-string argument throw their messages with no system call and no change |
| Properties.SetrlimitShapeErrors | src/posix.cc:88-98 | the wrong argument count, a non-string name and a non-object update throw their messages with no system call and no change |
| Properties.UnknownNameFailsFirst | src/posix.cc:70-72 | an unknown name throws "unknown resource name" from both entry points (lines 109-111 for setrlimit) before any system call |
| Properties.GetrlimitKnownName | src/posix.cc:74-76 | a known name leads to exactly one getrlimit on its id; it fails with that call's errno when the kernel refuses |
| Properties.SetrlimitOmittedIsNoOp | src/posix.cc:138-148 | setrlimit(name, {}) leaves the kernel as it was; on success it wrote back the pair it read |
| Properties.SetrlimitSoftOnly | src/posix.cc:118-145 | supplying only soft sets soft and keeps hard and every other resource |
| Properties.SetrlimitHardOnly | src/posix.cc:124-145 | supplying only hard sets hard and keeps soft and every other resource |
| Properties.SetrlimitAbortsOnFailedRead | src/posix.cc:138-143 | when a side is omitted and the read fails, the call throws the getrlimit errno, never issues setrlimit and changes nothing |
| Properties.SetrlimitFullSkipsRead | src/posix.cc:117-148 | with both sides supplied the only system call is setrlimit with the converted pair |
| Properties.GetThenSetIsNoOp | src/posix.cc:74-150 | for a known name the kernel holds, with limits that are null or fit in int64, when the kernel answers the read and the write, getrlimit succeeds and writing back what it reported succeeds and leaves the kernel unchanged |
| Properties.SetUnlimitedSoftThenGet | src/posix.cc:117-148 | for a known name the kernel holds, when the kernel answers every call, setrlimit(name, {soft: null}) succeeds and getrlimit then reports soft as null and hard as before |
| Properties.SetrlimitRefusedWrite | src/posix.cc:138-150 | for a known name whose read succeeds, a refused write throws the setrlimit errno after the read (only if a side was omitted) and one setrlimit with the intended pair, and changes nothing |
| Properties.SetrlimitCallOrder | src/posix.cc:138-150 | a setrlimit call issues at most two system calls: a getrlimit only first and only when a side is omitted, a setrlimit only last |
| Properties.FailedSetLeavesReadings | src/posix.cc:148-150 | after a failed setrlimit every getrlimit answers as it would have before |

## Left out

- `lib/posix/index.js` only locates and loads the compiled extension; it is file-system I/O with nothing to state.
- V8/Nan glue (`HandleScope`, property get/set, `ErrnoException` message text, `EXPORT`, `init`, `NODE_MODULE`) is foreign API; an errno exception is modelled as the system-call name and the errno.
- The `(double)` conversion on the read path (line 44) is floating point; the model reports the exact integer, so values above 2^53 do not lose precision here.
- The script-side coercion of a `soft`/`hard` value to an integer (lines 122 and 132), including present-but-`undefined` keys, non-numbers and numbers outside the int64 range, is JavaScript semantics; a supplied value is modelled as the `int64_t` that coercion yields.
- GetThenSetIsNoOp: in the source the round trip goes through a double (line 44), so it fails for limits above 2^53; the model reads exact integers and states it for every limit that fits in int64.
- The UTF-8 encoding of the name argument is not modelled; names are compared as character sequences, which is exact for the ASCII names of the table.
- Kernel rules (soft not above hard, privilege to raise the hard limit, per-resource restrictions) belong to the operating system and are decided by the fault oracle, not asserted.
- Platform-specific numbering of `RLIMIT_*` and of `RLIM_INFINITY` is fixed to Linux's.
- The race between the defaulting read and the write when threads share the process is not modelled; each call is one atomic step of the model.
