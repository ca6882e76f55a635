/** The static resource-name table and the linear scan that resolves a name
    to a platform resource id (`rlimit_name_to_res` in src/posix.cc). */
module Registry {

  /** Which optional kernel constants the build platform defines. */
  datatype Platform = Platform(hasNproc: bool, hasAs: bool)

  /** One `(name, id)` row of the table. */
  datatype Entry = Entry(name: string, resource: int)

  /** The value the scan leaves in `resource` when no row matches. */
  const NOT_FOUND: int := -1

  // Resource ids as numbered by Linux's <sys/resource.h>.
  const RLIMIT_CPU: int := 0
  const RLIMIT_FSIZE: int := 1
  const RLIMIT_DATA: int := 2
  const RLIMIT_STACK: int := 3
  const RLIMIT_CORE: int := 4
  const RLIMIT_RSS: int := 5
  const RLIMIT_NPROC: int := 6
  const RLIMIT_NOFILE: int := 7
  const RLIMIT_MEMLOCK: int := 8
  const RLIMIT_AS: int := 9

  /** The preprocessor condition around a row of the table. */
  datatype Guard = Always | IfNproc | IfAs

  /** A row of the table as written, with its `#ifdef`. */
  datatype Row = Row(name: string, resource: int, guard: Guard)

  /** The rows of `rlimit_name_to_res` in source order; the `{0, 0}`
      terminator is the end of the sequence. */
  const SOURCE_ROWS: seq<Row> :=
    [ Row("core", RLIMIT_CORE, Always)
    , Row("cpu", RLIMIT_CPU, Always)
    , Row("data", RLIMIT_DATA, Always)
    , Row("fsize", RLIMIT_FSIZE, Always)
    , Row("nofile", RLIMIT_NOFILE, Always)
    , Row("memlock", RLIMIT_MEMLOCK, Always)
    , Row("rss", RLIMIT_RSS, Always)
    , Row("nproc", RLIMIT_NPROC, IfNproc)
    , Row("stack", RLIMIT_STACK, Always)
    , Row("as", RLIMIT_AS, IfAs) ]

  /** The reference pairing of each name with the `RLIMIT_` constant of the
      same name; the table's rows are checked against it, so a row that
      paired a name with another resource's constant would be caught. */
  const RESOURCE_IDS: map<string, int> :=
    map[ "core" := RLIMIT_CORE, "cpu" := RLIMIT_CPU, "data" := RLIMIT_DATA
       , "fsize" := RLIMIT_FSIZE, "nofile" := RLIMIT_NOFILE
       , "memlock" := RLIMIT_MEMLOCK, "rss" := RLIMIT_RSS
       , "nproc" := RLIMIT_NPROC, "stack" := RLIMIT_STACK, "as" := RLIMIT_AS ]

  /** Whether the preprocessor keeps a row on platform `p`. */
  predicate Enabled(p: Platform, g: Guard) {
    match g
    case Always => true
    case IfNproc => p.hasNproc
    case IfAs => p.hasAs
  }

  /** The names a platform recognises, written as a set, independently of
      the order of the table. */
  function KnownNames(p: Platform): set<string> {
    {"core", "cpu", "data", "fsize", "nofile", "memlock", "rss", "stack"}
    + (if p.hasNproc then {"nproc"} else {})
    + (if p.hasAs then {"as"} else {})
  }

  /** The names that occur in a table. */
  function Names(t: seq<Entry>): set<string> {
    set i | 0 <= i < |t| :: t[i].name
  }

  /** The names of the rows a platform keeps. */
  function EnabledNames(rows: seq<Row>, p: Platform): set<string> {
    set j | 0 <= j < |rows| && Enabled(p, rows[j].guard) :: rows[j].name
  }

  predicate NamesDistinct(t: seq<Entry>) {
    forall i, j | 0 <= i < j < |t| :: t[i].name != t[j].name
  }

  predicate ResourcesDistinct(t: seq<Entry>) {
    forall i, j | 0 <= i < j < |t| :: t[i].resource != t[j].resource
  }

  predicate RowNamesDistinct(rows: seq<Row>) {
    forall i, j | 0 <= i < j < |rows| :: rows[i].name != rows[j].name
  }

  predicate RowResourcesDistinct(rows: seq<Row>) {
    forall i, j | 0 <= i < j < |rows| :: rows[i].resource != rows[j].resource
  }

  /** The ids that occur in a table. */
  function Resources(t: seq<Entry>): set<int> {
    set i | 0 <= i < |t| :: t[i].resource
  }

  /** The ids written in a sequence of rows, kept or not. */
  function RowResources(rows: seq<Row>): set<int> {
    set j | 0 <= j < |rows| :: rows[j].resource
  }

  lemma NamesCons(e: Entry, t: seq<Entry>)
    ensures Names([e] + t) == {e.name} + Names(t)
    ensures Resources([e] + t) == {e.resource} + Resources(t)
    ensures Pairs([e] + t) == {(e.name, e.resource)} + Pairs(t)
  {
    var u := [e] + t;
    assert u[0] == e;
    assert forall i | 0 <= i < |t| :: u[i + 1] == t[i];
  }

  lemma RowsCons(rows: seq<Row>, p: Platform)
    requires |rows| > 0
    ensures EnabledNames(rows, p) ==
      (if Enabled(p, rows[0].guard) then {rows[0].name} else {}) + EnabledNames(rows[1..], p)
    ensures RowResources(rows) == {rows[0].resource} + RowResources(rows[1..])
    ensures RowPairs(rows) == {(rows[0].name, rows[0].resource)} + RowPairs(rows[1..])
  {
    assert forall j | 0 <= j < |rows| - 1 :: rows[1..][j] == rows[j + 1];
    assert forall j | 1 <= j < |rows| :: rows[j] == rows[1..][j - 1];
  }

  /** The `(name, id)` pairs of a table. */
  function Pairs(t: seq<Entry>): set<(string, int)> {
    set i | 0 <= i < |t| :: (t[i].name, t[i].resource)
  }

  /** The `(name, id)` pairs written in a sequence of rows, kept or not. */
  function RowPairs(rows: seq<Row>): set<(string, int)> {
    set j | 0 <= j < |rows| :: (rows[j].name, rows[j].resource)
  }

  /** What the preprocessor leaves of `rows` on platform `p`, in order. */
  function Select(rows: seq<Row>, p: Platform): (t: seq<Entry>)
    ensures |t| <= |rows|
    ensures Names(t) == EnabledNames(rows, p)
    ensures Pairs(t) <= RowPairs(rows)
  {
    if |rows| == 0 then []
    else
      var rest := Select(rows[1..], p);
      RowsCons(rows, p);
      if Enabled(p, rows[0].guard) then
        var e := Entry(rows[0].name, rows[0].resource);
        NamesCons(e, rest);
        [e] + rest
      else rest
  }

  /** Selecting rows keeps their names apart when the rows' names are
      apart, and never introduces an id the rows do not carry. */
  lemma {:induction false} SelectKeepsNames(rows: seq<Row>, p: Platform)
    requires RowNamesDistinct(rows)
    ensures NamesDistinct(Select(rows, p))
  {
    if |rows| > 0 {
      SelectKeepsNames(rows[1..], p);
      RowsCons(rows, p);
      if Enabled(p, rows[0].guard) {
        var rest := Select(rows[1..], p);
        assert rows[0].name !in EnabledNames(rows[1..], p);
        var t := Select(rows, p);
        assert t == [Entry(rows[0].name, rows[0].resource)] + rest;
        assert forall i | 0 < i < |t| :: t[i] == rest[i - 1] && t[i].name in Names(rest);
      }
    }
  }

  /** Selecting rows never introduces an id the rows do not carry. */
  lemma {:induction false} SelectResourcesFrom(rows: seq<Row>, p: Platform)
    ensures Resources(Select(rows, p)) <= RowResources(rows)
  {
    if |rows| > 0 {
      SelectResourcesFrom(rows[1..], p);
      RowsCons(rows, p);
      if Enabled(p, rows[0].guard) {
        NamesCons(Entry(rows[0].name, rows[0].resource), Select(rows[1..], p));
      }
    }
  }

  /** A table whose ids all come from non-negative rows has only
      non-negative ids. */
  lemma ResourcesNonNegative(t: seq<Entry>, rows: seq<Row>)
    requires Resources(t) <= RowResources(rows)
    requires forall j | 0 <= j < |rows| :: rows[j].resource >= 0
    ensures forall i | 0 <= i < |t| :: t[i].resource >= 0
  {
    forall i | 0 <= i < |t|
      ensures t[i].resource >= 0
    {
      assert t[i].resource in Resources(t);
    }
  }

  /** Selecting rows keeps their ids apart when the rows' ids are apart. */
  lemma {:induction false} SelectKeepsResources(rows: seq<Row>, p: Platform)
    requires RowResourcesDistinct(rows)
    ensures ResourcesDistinct(Select(rows, p))
  {
    if |rows| > 0 {
      SelectKeepsResources(rows[1..], p);
      SelectResourcesFrom(rows[1..], p);
      RowsCons(rows, p);
      if Enabled(p, rows[0].guard) {
        var rest := Select(rows[1..], p);
        assert rows[0].resource !in RowResources(rows[1..]);
        var t := Select(rows, p);
        assert t == [Entry(rows[0].name, rows[0].resource)] + rest;
        assert forall i | 0 < i < |t| :: t[i] == rest[i - 1] && t[i].resource in Resources(rest);
      }
    }
  }

  /** The rows kept on platform `p` carry exactly its known names. */
  lemma SourceRowsNames(p: Platform)
    ensures EnabledNames(SOURCE_ROWS, p) == KnownNames(p)
  {
    var r := SOURCE_ROWS;
    assert r[0].name == "core" && r[1].name == "cpu" && r[2].name == "data";
    assert r[3].name == "fsize" && r[4].name == "nofile" && r[5].name == "memlock";
    assert r[6].name == "rss" && r[7].name == "nproc" && r[8].name == "stack";
    assert r[9].name == "as";
  }

  /** Every row pairs its name with the id RESOURCE_IDS gives it. */
  lemma SourceRowsIds(t: seq<Entry>)
    requires Pairs(t) <= RowPairs(SOURCE_ROWS)
    ensures forall i | 0 <= i < |t| ::
              t[i].name in RESOURCE_IDS && RESOURCE_IDS[t[i].name] == t[i].resource
  {
    assert forall pr | pr in RowPairs(SOURCE_ROWS) ::
      pr.0 in RESOURCE_IDS && RESOURCE_IDS[pr.0] == pr.1;
    forall i | 0 <= i < |t|
      ensures t[i].name in RESOURCE_IDS && RESOURCE_IDS[t[i].name] == t[i].resource
    {
      assert (t[i].name, t[i].resource) in Pairs(t);
    }
  }

  /** The rows name ten different resources. */
  lemma SourceRowsNamesDistinct()
    ensures RowNamesDistinct(SOURCE_ROWS)
  {
    var r := SOURCE_ROWS;
    assert r[0].name == "core" && r[1].name == "cpu" && r[2].name == "data";
    assert r[3].name == "fsize" && r[4].name == "nofile" && r[5].name == "memlock";
    assert r[6].name == "rss" && r[7].name == "nproc" && r[8].name == "stack";
    assert r[9].name == "as";
  }

  /** The rows carry ten different, non-negative ids. */
  lemma SourceRowsIdsDistinct()
    ensures RowResourcesDistinct(SOURCE_ROWS)
    ensures forall j | 0 <= j < |SOURCE_ROWS| :: SOURCE_ROWS[j].resource >= 0
  {
    var r := SOURCE_ROWS;
    assert r[0].resource == 4 && r[1].resource == 0 && r[2].resource == 2;
    assert r[3].resource == 1 && r[4].resource == 7 && r[5].resource == 8;
    assert r[6].resource == 5 && r[7].resource == 6 && r[8].resource == 3;
    assert r[9].resource == 9;
  }

  /** The table the build produces on platform `p`. */
  function Table(p: Platform): seq<Entry> {
    Select(SOURCE_ROWS, p)
  }

  /** The platform's table holds exactly its known names, each once. */
  lemma TableNames(p: Platform)
    ensures Names(Table(p)) == KnownNames(p)
    ensures NamesDistinct(Table(p))
  {
    SourceRowsNamesDistinct();
    SourceRowsNames(p);
    SelectKeepsNames(SOURCE_ROWS, p);
  }

  /** The platform's table has distinct non-negative ids, each the id
      RESOURCE_IDS gives the row's name. */
  lemma TableIds(p: Platform)
    ensures ResourcesDistinct(Table(p))
    ensures forall i | 0 <= i < |Table(p)| :: Table(p)[i].resource >= 0
    ensures forall i | 0 <= i < |Table(p)| ::
              Table(p)[i].name in RESOURCE_IDS && RESOURCE_IDS[Table(p)[i].name] == Table(p)[i].resource
  {
    SourceRowsIdsDistinct();
    SelectKeepsResources(SOURCE_ROWS, p);
    SelectResourcesFrom(SOURCE_ROWS, p);
    var t := Select(SOURCE_ROWS, p);
    ResourcesNonNegative(t, SOURCE_ROWS);
    SourceRowsIds(t);
  }

  /** The C string that `Nan::Utf8String` hands to `strcmp`: the argument up
      to (not including) its first NUL character. */
  function CName(s: string): (r: string)
    ensures r <= s
    ensures '\0' !in r
    ensures |r| < |s| ==> s[|r|] == '\0'
  {
    if |s| == 0 || s[0] == '\0' then ""
    else [s[0]] + CName(s[1..])
  }

  /** First-match scan of a table: the id of the first row whose name equals
      `name`, or NOT_FOUND when no row does. */
  function Lookup(t: seq<Entry>, name: string): (r: int)
    ensures (forall i | 0 <= i < |t| :: t[i].name != name) ==> r == NOT_FOUND
    ensures forall i | 0 <= i < |t| && t[i].name == name
              && (forall j | 0 <= j < i :: t[j].name != name) :: r == t[i].resource
  {
    if |t| == 0 then NOT_FOUND
    else if t[0].name == name then t[0].resource
    else Lookup(t[1..], name)
  }

  /** The scan as the source writes it: a loop over the rows that stops at
      the first match. */
  method LookupScan(t: seq<Entry>, name: string) returns (resource: int)
    ensures resource == Lookup(t, name)
  {
    resource := NOT_FOUND;
    var i := 0;
    while i < |t|
      invariant 0 <= i <= |t|
      invariant forall j | 0 <= j < i :: t[j].name != name
    {
      if t[i].name == name {
        resource := t[i].resource;
        break;
      }
      i := i + 1;
    }
  }

  /** With distinct names, first match and any match agree. */
  lemma LookupAnyMatch(t: seq<Entry>, name: string, i: int)
    requires NamesDistinct(t)
    requires 0 <= i < |t| && t[i].name == name
    ensures Lookup(t, name) == t[i].resource
  {
  }

  /** The scan over the platform's table finds a name iff the platform
      knows it, and then finds the id the name stands for. */
  lemma LookupTable(p: Platform, name: string)
    ensures Lookup(Table(p), name) ==
              if name in KnownNames(p) then RESOURCE_IDS[name] else NOT_FOUND
  {
    var t := Table(p);
    TableNames(p);
    TableIds(p);
    if name in KnownNames(p) {
      assert name in Names(t);
      var i :| 0 <= i < |t| && t[i].name == name;
      LookupAnyMatch(t, name, i);
    }
  }

  /** Name resolution as both entry points do it: a name resolves iff its
      C-string form is one of the platform's names, to the id that name
      stands for; otherwise the result is -1, and since ids are never
      negative the source's `resource < 0` test means exactly "unknown". */
  function Resolve(p: Platform, name: string): (r: int)
    ensures r >= 0 <==> CName(name) in KnownNames(p)
    ensures r == if CName(name) in KnownNames(p) then RESOURCE_IDS[CName(name)] else NOT_FOUND
  {
    LookupTable(p, CName(name));
    Lookup(Table(p), CName(name))
  }

  /** An illustration of Resolve's contract: names are compared
      case-sensitively, so "NOFILE" is not "nofile". */
  lemma ResolveIsCaseSensitive(p: Platform)
    ensures Resolve(p, "NOFILE") == NOT_FOUND
  {
    var n := "NOFILE";
    CNameWithoutNul(n);
    assert n !in KnownNames(p) by {
      assert n[0] == 'N';
    }
  }

  /** A string without NUL characters is its own C string. */
  lemma CNameWithoutNul(s: string)
    requires '\0' !in s
    ensures CName(s) == s
  {
    assert |CName(s)| == |s|;
  }

  lemma {:induction false} CNameStopsAtNul(a: string, b: string)
    requires '\0' !in a
    ensures CName(a + ['\0'] + b) == a
  {
    if |a| > 0 {
      assert (a + ['\0'] + b)[1..] == a[1..] + ['\0'] + b;
      CNameStopsAtNul(a[1..], b);
    } else {
      assert (a + ['\0'] + b)[0] == '\0';
    }
  }

  /** `strcmp` stops at the first NUL, so a name with a NUL in it resolves
      exactly as the part before the NUL does: "core\0junk" is "core". */
  lemma ResolveStopsAtNul(p: Platform, a: string, b: string)
    requires '\0' !in a
    ensures Resolve(p, a + ['\0'] + b) == Resolve(p, a)
  {
    CNameStopsAtNul(a, b);
    var x, y := CName(a + ['\0'] + b), CName(a);
    assert x == y by {
      assert |y| <= |a| && a[..|y|] == y;
    }
  }
}
