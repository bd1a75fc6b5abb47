/**
 * The SDK's internal logging helpers: the tables between Python logging levels and the
 * Prefab `LogLevel` enum, the dotted logger-name walk, the per-thread reentrancy flag,
 * and the internal logger that registers itself in the logging manager's hierarchy and
 * tags every record it emits as internal.
 */
module InternalLogging {
  import opened Wrappers
  import opened Strings

  // ---------------------------------------------------------------------------
  // Level tables
  // ---------------------------------------------------------------------------

  /** The Prefab log levels, least to most severe. */
  datatype LogLevel = TRACE | DEBUG | INFO | WARN | ERROR | FATAL

  /** Python's numeric logging levels (`logging.WARN` is an alias of `logging.WARNING`). */
  const PY_NOTSET: int := 0
  const PY_DEBUG: int := 10
  const PY_INFO: int := 20
  const PY_WARNING: int := 30
  const PY_WARN: int := PY_WARNING
  const PY_ERROR: int := 40
  const PY_CRITICAL: int := 50

  /** Lower-case Python level names to Prefab levels. */
  const PythonLevelNameToPrefab: map<string, LogLevel> :=
    map["debug" := DEBUG, "info" := INFO, "warn" := WARN, "warning" := WARN,
        "error" := ERROR, "critical" := FATAL]

  /** Python numeric levels to Prefab levels; NOTSET is read as DEBUG. */
  const PythonToPrefab: map<int, LogLevel> :=
    map[PY_NOTSET := DEBUG, PY_DEBUG := DEBUG, PY_INFO := INFO, PY_WARN := WARN,
        PY_ERROR := ERROR, PY_CRITICAL := FATAL]

  /** Prefab levels to Python numeric levels; Python has no TRACE, so it becomes DEBUG. */
  const PrefabToPython: map<LogLevel, int> :=
    map[TRACE := PY_DEBUG, DEBUG := PY_DEBUG, INFO := PY_INFO, WARN := PY_WARN,
        ERROR := PY_ERROR, FATAL := PY_CRITICAL]

  /** Exactly six lower-case names are known; both spellings of warning and "critical" map as documented. */
  lemma NameTable()
    ensures PythonLevelNameToPrefab.Keys == {"debug", "info", "warn", "warning", "error", "critical"}
    ensures PythonLevelNameToPrefab["warn"] == PythonLevelNameToPrefab["warning"] == WARN
    ensures PythonLevelNameToPrefab["critical"] == FATAL
    ensures forall n :: n in PythonLevelNameToPrefab ==> PythonLevelNameToPrefab[n] != TRACE
  {
  }

  /** Six Python levels are known; NOTSET and DEBUG both read as DEBUG, CRITICAL as FATAL. */
  lemma PythonToPrefabLevels()
    ensures PythonToPrefab.Keys == {PY_NOTSET, PY_DEBUG, PY_INFO, PY_WARNING, PY_ERROR, PY_CRITICAL}
    ensures PythonToPrefab[PY_NOTSET] == PythonToPrefab[PY_DEBUG] == DEBUG
    ensures PythonToPrefab[PY_INFO] == INFO && PythonToPrefab[PY_WARN] == PythonToPrefab[PY_WARNING] == WARN
    ensures PythonToPrefab[PY_ERROR] == ERROR && PythonToPrefab[PY_CRITICAL] == FATAL
    ensures forall p :: p in PythonToPrefab ==> PythonToPrefab[p] != TRACE
  {
  }

  /** The Prefab-to-Python table is total and sends each level to the expected Python level. */
  lemma PrefabToPythonLevels()
    ensures PrefabToPython.Keys == {TRACE, DEBUG, INFO, WARN, ERROR, FATAL}
    ensures PrefabToPython[TRACE] == PrefabToPython[DEBUG] == PY_DEBUG
    ensures PrefabToPython[INFO] == PY_INFO && PrefabToPython[WARN] == PY_WARNING
    ensures PrefabToPython[ERROR] == PY_ERROR && PrefabToPython[FATAL] == PY_CRITICAL
  {
  }

  /**
   * Round trips through the two numeric tables: every Prefab level but TRACE comes back
   * unchanged (TRACE comes back as DEBUG), and every known Python level but NOTSET comes
   * back unchanged (NOTSET comes back as DEBUG).
   */
  lemma NumericRoundTrips()
    ensures forall l :: (l in PrefabToPython && PrefabToPython[l] in PythonToPrefab &&
      PythonToPrefab[PrefabToPython[l]] == (if l == TRACE then DEBUG else l))
    ensures PythonToPrefab.Keys == {PY_NOTSET, PY_DEBUG, PY_INFO, PY_WARNING, PY_ERROR, PY_CRITICAL}
    ensures PythonToPrefab[PY_NOTSET] == DEBUG
    ensures forall p :: p in PythonToPrefab ==>
      PrefabToPython[PythonToPrefab[p]] == (if p == PY_NOTSET then PY_DEBUG else p)
  {
    PrefabToPythonLevels();
    forall l
      ensures l in PrefabToPython && PrefabToPython[l] in PythonToPrefab
      ensures PythonToPrefab[PrefabToPython[l]] == (if l == TRACE then DEBUG else l)
    {
      match l
      case TRACE =>
      case DEBUG =>
      case INFO =>
      case WARN =>
      case ERROR =>
      case FATAL =>
    }
  }

  // ---------------------------------------------------------------------------
  // The dotted name walk
  // ---------------------------------------------------------------------------

  /** x is s itself, or a prefix of s that is followed in s by a dot. */
  predicate IsDottedPrefix(s: string, x: string) {
    |x| <= |s| && s[..|x|] == x && (|x| == |s| || s[|x|] == '.')
  }

  /**
   * `iterate_dotted_string`: the joins of the first i dot-separated segments of s, for i
   * from the number of segments down to 1. There is one item per segment, the first item is
   * s itself and the last is the first segment (a dotted prefix holding no dot).
   */
  function IterateDottedString(s: string): (r: seq<string>)
    ensures |r| == multiset(s)['.'] + 1
    ensures r[0] == s
    ensures IsDottedPrefix(s, r[|r| - 1]) && '.' !in r[|r| - 1]
  {
    var parts := Split(s, '.');
    SplitCount(s, '.');
    JoinSplit(s, '.');
    assert parts[..|parts|] == parts;
    var r := seq(|parts|, j requires 0 <= j < |parts| => Join(parts[..|parts| - j], '.'));
    AncestorIsDottedPrefix(s, |parts| - 1);
    r
  }

  /** The item holding the first i segments (helper for the two shape lemmas). */
  lemma AncestorIsDottedPrefix(s: string, j: nat)
    requires j < |Split(s, '.')|
    ensures var parts := Split(s, '.');
      IsDottedPrefix(s, Join(parts[..|parts| - j], '.'))
  {
    var parts := Split(s, '.');
    var i := |parts| - j;
    JoinSplit(s, '.');
    if i == |parts| {
      assert parts[..i] == parts;
    } else {
      JoinPrefix(parts, '.', i);
    }
  }

  /** Every item is s or a prefix of s followed by a dot, and items get strictly shorter. */
  lemma AncestorShape(s: string, j: nat)
    requires j < |IterateDottedString(s)|
    ensures IsDottedPrefix(s, IterateDottedString(s)[j])
    ensures j > 0 ==> |IterateDottedString(s)[j]| < |IterateDottedString(s)[j - 1]|
  {
    var parts := Split(s, '.');
    AncestorIsDottedPrefix(s, j);
    if j > 0 {
      var i := |parts| - j;
      var r := IterateDottedString(s);
      assert r[j] == Join(parts[..i], '.');
      assert r[j - 1] == Join(parts[..i + 1], '.');
      assert parts[..i + 1][..i] == parts[..i];
    }
  }

  /** Every dotted prefix of s (s itself included) is one of the items. */
  lemma AncestorsComplete(s: string, k: nat)
    requires k <= |s| && (k == |s| || s[k] == '.')
    ensures s[..k] in IterateDottedString(s)
  {
    var r := IterateDottedString(s);
    if k == |s| {
      assert s[..k] == s == r[0];
    } else {
      var x, y := s[..k], s[k + 1..];
      assert s == x + ['.'] + y;
      SplitAppend(x, '.', y);
      var parts := Split(s, '.');
      var i := |Split(x, '.')|;
      assert parts[..i] == Split(x, '.');
      JoinSplit(x, '.');
      assert r[|parts| - i] == x;
    }
  }

  /** The items are exactly the dotted prefixes of s. */
  lemma AncestorsExactly(s: string, x: string)
    ensures x in IterateDottedString(s) <==> IsDottedPrefix(s, x)
  {
    var r := IterateDottedString(s);
    if x in r {
      var j :| 0 <= j < |r| && r[j] == x;
      AncestorShape(s, j);
    }
    if IsDottedPrefix(s, x) {
      AncestorsComplete(s, |x|);
    }
  }

  // ---------------------------------------------------------------------------
  // Reentrancy flag
  // ---------------------------------------------------------------------------

  /**
   * `ReentrancyCheck`: one thread's view of the thread-local attribute
   * `prefab_log_reentrant`, which is either absent or present with a value.
   */
  class ReentrancyCheck {
    var reentrant: Option<bool>

    /** A thread starts without the attribute. */
    constructor ()
      ensures reentrant == None && !IsSet()
    {
      reentrant := None;
    }

    /** `set`: the attribute becomes True. */
    method Set()
      modifies this
      ensures IsSet()
      ensures reentrant == Some(true)
    {
      reentrant := Some(true);
    }

    /** `is_set`: the attribute's value, False when it is absent. */
    predicate IsSet(): (isSet: bool)
      reads this
      ensures isSet <==> reentrant == Some(true)
    {
      reentrant.GetOr(false)
    }

    /** `clear`: deletes the attribute; when it is absent the AttributeError is swallowed. */
    method Clear()
      modifies this
      ensures !IsSet()
      ensures reentrant == None
    {
      if reentrant.Some? {
        reentrant := None;
      } else {
        // delattr raised AttributeError: the flag was not set for this thread
      }
    }
  }

  // ---------------------------------------------------------------------------
  // The logger hierarchy
  // ---------------------------------------------------------------------------

  /** An entry of the logging manager's `loggerDict`: a logger, or a placeholder holding loggers. */
  datatype Node = LoggerNode(logger: object) | PlaceHolder(loggers: set<object>)

  /** A logger's parent: the root logger or a registered logger. */
  datatype Parent = Root | LoggerParent(logger: object)

  /** The logging manager, reduced to its name-to-node dictionary. */
  class LoggerManager {
    var loggerDict: map<string, Node>

    constructor ()
      ensures loggerDict == map[]
    {
      loggerDict := map[];
    }
  }

  /**
   * Python's `s.rfind(".", 0, end)`: the largest index below `end` (and inside s) holding a
   * dot, or -1 when there is none.
   */
  function RFindDot(s: string, end: nat): (r: int)
    ensures -1 <= r < end && r < |s|
    ensures r >= 0 ==> s[r] == '.'
    ensures forall k :: r < k < end && k < |s| ==> s[k] != '.'
    decreases end
  {
    if end == 0 then -1
    else if end > |s| then RFindDot(s, |s|)
    else if s[end - 1] == '.' then end - 1
    else RFindDot(s, end - 1)
  }

  predicate IsLoggerAt(d: map<string, Node>, key: string) {
    key in d && d[key].LoggerNode?
  }

  /** The loggers a placeholder at `key` already holds (none when the key is absent). */
  function Held(d: map<string, Node>, key: string): set<object> {
    if key in d && d[key].PlaceHolder? then d[key].loggers else {}
  }

  /**
   * The parent fix-up loop of the constructor, from the dot at index i: it stops at the first
   * visited prefix registered as a logger, and on the way turns each missing prefix into a
   * placeholder holding `me` and adds `me` to each placeholder it meets.
   */
  function Walk(d: map<string, Node>, name: string, me: object, i: int): (r: (map<string, Node>, Parent))
    requires -1 <= i < |name|
    ensures d.Keys <= r.0.Keys
    ensures r.1.LoggerParent? ==> LoggerNode(r.1.logger) in d.Values
    decreases i + 1
  {
    if i <= 0 then (d, Root)
    else
      var key := name[..i];
      if IsLoggerAt(d, key) then (d, LoggerParent(d[key].logger))
      else Walk(d[key := PlaceHolder(Held(d, key) + {me})], name, me, RFindDot(name, i - 1))
  }

  /**
   * The dot indices the loop would visit from index i if it never met a logger: the current
   * dot, then the last dot before the character preceding it. A dot at index 0 ends the walk,
   * and a dot right before the current one is skipped ("a..b" visits "a." only).
   */
  function Visits(name: string, i: int): (vs: seq<nat>)
    requires -1 <= i < |name|
    requires i > 0 ==> name[i] == '.'
    ensures forall q :: 0 <= q < |vs| ==> 0 < vs[q] <= i && name[vs[q]] == '.'
    ensures forall q, r :: 0 <= q < r < |vs| ==> vs[r] < vs[q]
    decreases i + 1
  {
    if i <= 0 then [] else [i] + Visits(name, RFindDot(name, i - 1))
  }

  /** Indices of dots inside the name, strictly decreasing, as `Visits` produces them. */
  predicate Descending(name: string, vs: seq<nat>) {
    && (forall q :: 0 <= q < |vs| ==> vs[q] < |name|)
    && (forall q, r :: 0 <= q < r < |vs| ==> vs[r] < vs[q])
  }

  /** The same walk, along a given list of indices. */
  function WalkAlong(d: map<string, Node>, name: string, me: object, vs: seq<nat>): (map<string, Node>, Parent)
    requires Descending(name, vs)
    decreases |vs|
  {
    if vs == [] then (d, Root)
    else
      var key := name[..vs[0]];
      if IsLoggerAt(d, key) then (d, LoggerParent(d[key].logger))
      else WalkAlong(d[key := PlaceHolder(Held(d, key) + {me})], name, me, vs[1..])
  }

  /** The loop's walk is the walk along the indices it visits. */
  lemma {:induction false} WalkVisits(d: map<string, Node>, name: string, me: object, i: int)
    requires -1 <= i < |name|
    requires i > 0 ==> name[i] == '.'
    ensures Descending(name, Visits(name, i))
    ensures Walk(d, name, me, i) == WalkAlong(d, name, me, Visits(name, i))
    decreases i + 1
  {
    if i > 0 && !IsLoggerAt(d, name[..i]) {
      var i' := RFindDot(name, i - 1);
      assert Visits(name, i)[1..] == Visits(name, i');
      WalkVisits(d[name[..i] := PlaceHolder(Held(d, name[..i]) + {me})], name, me, i');
    }
  }

  /** The position in vs of the first prefix registered as a logger, or |vs| when none is. */
  function StopAt(d: map<string, Node>, name: string, vs: seq<nat>): (p: nat)
    requires Descending(name, vs)
    ensures p <= |vs|
  {
    if vs == [] then 0
    else if IsLoggerAt(d, name[..vs[0]]) then 0
    else 1 + StopAt(d, name, vs[1..])
  }

  /** The stop is the first visited position whose prefix is registered as a logger. */
  lemma {:induction false} StopAtFirstLogger(d: map<string, Node>, name: string, vs: seq<nat>)
    requires Descending(name, vs)
    ensures forall q :: 0 <= q < StopAt(d, name, vs) ==> !IsLoggerAt(d, name[..vs[q]])
    ensures StopAt(d, name, vs) < |vs| ==> IsLoggerAt(d, name[..vs[StopAt(d, name, vs)]])
  {
    if vs != [] && !IsLoggerAt(d, name[..vs[0]]) {
      StopAtFirstLogger(d, name, vs[1..]);
      forall q | 0 < q < StopAt(d, name, vs)
        ensures !IsLoggerAt(d, name[..vs[q]])
      {
        assert vs[q] == vs[1..][q - 1];
      }
    }
  }

  /** The prefixes at the first p positions of vs. */
  function Touched(name: string, vs: seq<nat>, p: nat): set<string>
    requires p <= |vs|
    requires Descending(name, vs)
  {
    if p == 0 then {} else {name[..vs[0]]} + Touched(name, vs[1..], p - 1)
  }

  /** A touched key is the prefix at one of the first p positions. */
  lemma {:induction false} TouchedAt(name: string, vs: seq<nat>, p: nat, k: string)
    requires p <= |vs|
    requires Descending(name, vs)
    requires k in Touched(name, vs, p)
    ensures exists q :: 0 <= q < p && k == name[..vs[q]]
  {
    if k != name[..vs[0]] {
      TouchedAt(name, vs[1..], p - 1, k);
      var q :| 0 <= q < p - 1 && k == name[..vs[1..][q]];
      assert k == name[..vs[q + 1]];
    }
  }

  /** The stop comes after every position up to q when none of them holds a logger. */
  lemma {:induction false} StopAtBeyond(d: map<string, Node>, name: string, vs: seq<nat>, q: nat)
    requires Descending(name, vs) && q < |vs|
    requires forall r :: 0 <= r <= q ==> !IsLoggerAt(d, name[..vs[r]])
    ensures q < StopAt(d, name, vs)
  {
    if q > 0 {
      assert forall r :: 0 <= r <= q - 1 ==> vs[1..][r] == vs[r + 1];
      StopAtBeyond(d, name, vs[1..], q - 1);
    }
  }

  /** Updating a key longer than every visited prefix does not move the stop. */
  lemma {:induction false} StopAtUpdate(d: map<string, Node>, name: string, vs: seq<nat>, key: string, n: Node)
    requires Descending(name, vs)
    requires forall q :: 0 <= q < |vs| ==> vs[q] < |key|
    ensures StopAt(d[key := n], name, vs) == StopAt(d, name, vs)
  {
    if vs != [] {
      assert name[..vs[0]] != key;
      StopAtUpdate(d, name, vs[1..], key, n);
    }
  }

  /** The prefixes after the first position are shorter than the first one, so they differ from it. */
  lemma WalkAlongStep(d: map<string, Node>, name: string, me: object, vs: seq<nat>)
    requires Descending(name, vs) && vs != []
    requires !IsLoggerAt(d, name[..vs[0]])
    ensures var key := name[..vs[0]];
      var n := PlaceHolder(Held(d, key) + {me});
      && StopAt(d, name, vs) == 1 + StopAt(d[key := n], name, vs[1..])
      && (forall k :: k in Touched(name, vs[1..], StopAt(d[key := n], name, vs[1..])) ==> |k| < |key|)
  {
    var key := name[..vs[0]];
    var n := PlaceHolder(Held(d, key) + {me});
    StopAtUpdate(d, name, vs[1..], key, n);
    var p' := StopAt(d[key := n], name, vs[1..]);
    forall k | k in Touched(name, vs[1..], p')
      ensures |k| < |key|
    {
      TouchedAt(name, vs[1..], p', k);
    }
  }

  /** The parent is the logger at the first visited prefix registered as one, else the root. */
  lemma {:induction false} WalkParent(d: map<string, Node>, name: string, me: object, vs: seq<nat>)
    requires Descending(name, vs)
    ensures var p := StopAt(d, name, vs);
      if p < |vs| then
        IsLoggerAt(d, name[..vs[p]]) && WalkAlong(d, name, me, vs).1 == LoggerParent(d[name[..vs[p]]].logger)
      else WalkAlong(d, name, me, vs).1 == Root
    decreases |vs|
  {
    StopAtFirstLogger(d, name, vs);
    if vs != [] && !IsLoggerAt(d, name[..vs[0]]) {
      var key := name[..vs[0]];
      var d1 := d[key := PlaceHolder(Held(d, key) + {me})];
      WalkAlongStep(d, name, me, vs);
      WalkParent(d1, name, me, vs[1..]);
      var p' := StopAt(d1, name, vs[1..]);
      if p' < |vs| - 1 {
        assert vs[1..][p'] < vs[0];
      }
    }
  }

  /** The walk adds exactly the prefixes before the stop to the dictionary's keys. */
  lemma {:induction false} WalkKeys(d: map<string, Node>, name: string, me: object, vs: seq<nat>)
    requires Descending(name, vs)
    ensures WalkAlong(d, name, me, vs).0.Keys == d.Keys + Touched(name, vs, StopAt(d, name, vs))
    decreases |vs|
  {
    if vs != [] && !IsLoggerAt(d, name[..vs[0]]) {
      var key := name[..vs[0]];
      WalkAlongStep(d, name, me, vs);
      WalkKeys(d[key := PlaceHolder(Held(d, key) + {me})], name, me, vs[1..]);
    }
  }

  /**
   * The entries after the walk: each prefix before the stop becomes a placeholder holding its
   * old loggers plus `me`; every other key keeps its entry.
   */
  lemma {:induction false} WalkEntries(d: map<string, Node>, name: string, me: object, vs: seq<nat>, k: string)
    requires Descending(name, vs)
    requires k in WalkAlong(d, name, me, vs).0
    ensures var t := Touched(name, vs, StopAt(d, name, vs));
      if k in t then WalkAlong(d, name, me, vs).0[k] == PlaceHolder(Held(d, k) + {me})
      else k in d && WalkAlong(d, name, me, vs).0[k] == d[k]
    decreases |vs|
  {
    if vs != [] && !IsLoggerAt(d, name[..vs[0]]) {
      var key := name[..vs[0]];
      var d1 := d[key := PlaceHolder(Held(d, key) + {me})];
      WalkAlongStep(d, name, me, vs);
      WalkEntries(d1, name, me, vs[1..], k);
      if k != key {
        assert Held(d1, k) == Held(d, k);
      }
    }
  }

  /** The visited prefixes are proper ancestors of the name, in the sense of the dotted walk. */
  lemma VisitsAreAncestors(name: string, i: int, q: nat)
    requires -1 <= i < |name|
    requires i > 0 ==> name[i] == '.'
    requires q < |Visits(name, i)|
    ensures var key := name[..Visits(name, i)[q]];
      key in IterateDottedString(name) && |key| < |name|
  {
    AncestorsComplete(name, Visits(name, i)[q]);
  }

  /** No dot of the name directly follows another dot: every segment but the first is non-empty. */
  predicate NoAdjacentDots(name: string) {
    forall k :: 0 < k < |name| && name[k] == '.' ==> name[k - 1] != '.'
  }

  /** k is a dot strictly inside the name past its first character: name[..k] is a proper ancestor the loop can visit. */
  predicate IsAncestorEnd(name: string, k: int) {
    0 < k < |name| && name[k] == '.'
  }

  /**
   * Conversely, when no two dots are adjacent, the walk from the dot at i visits every dot
   * from index 1 up to i.
   */
  lemma {:induction false} VisitsComplete(name: string, i: int, k: int)
    requires -1 <= i < |name|
    requires i > 0 ==> name[i] == '.'
    requires NoAdjacentDots(name)
    requires 0 < k <= i && name[k] == '.'
    ensures k in Visits(name, i)
    decreases i + 1
  {
    if k < i {
      assert name[i - 1] != '.';
      VisitsComplete(name, RFindDot(name, i - 1), k);
    }
  }

  /** From the last dot, the walk visits exactly the ends of the proper ancestors (no adjacent dots). */
  lemma VisitsExactly(name: string, k: int)
    requires NoAdjacentDots(name)
    ensures k in Visits(name, RFindDot(name, |name|)) <==> IsAncestorEnd(name, k)
  {
    if IsAncestorEnd(name, k) {
      VisitsComplete(name, RFindDot(name, |name|), k);
    }
  }

  /** No proper ancestor ending at or after index k is registered as a logger. */
  ghost predicate NoLoggerFrom(d: map<string, Node>, name: string, k: int) {
    forall k' :: k <= k' && IsAncestorEnd(name, k') ==> !IsLoggerAt(d, name[..k'])
  }

  lemma {:induction false} TouchedIncludes(name: string, vs: seq<nat>, p: nat, q: nat)
    requires p <= |vs|
    requires Descending(name, vs)
    requires q < p
    ensures name[..vs[q]] in Touched(name, vs, p)
  {
    if q > 0 {
      TouchedIncludes(name, vs[1..], p - 1, q - 1);
      assert vs[1..][q - 1] == vs[q];
    }
  }

  /** The visited dot indices are the ends of proper ancestors; position p ends one of them. */
  lemma VisitedIsAncestorEnd(name: string, p: nat)
    requires p < |Visits(name, RFindDot(name, |name|))|
    ensures IsAncestorEnd(name, Visits(name, RFindDot(name, |name|))[p])
  {
  }

  /** A visited prefix with no logger at or before its position becomes a placeholder holding `me`. */
  lemma PlaceholderAlong(d: map<string, Node>, name: string, me: object, vs: seq<nat>, q: nat)
    requires Descending(name, vs) && q < |vs|
    requires forall r :: 0 <= r <= q ==> !IsLoggerAt(d, name[..vs[r]])
    ensures var r := WalkAlong(d, name, me, vs).0;
      name[..vs[q]] in r && r[name[..vs[q]]] == PlaceHolder(Held(d, name[..vs[q]]) + {me})
  {
    var p := StopAt(d, name, vs);
    StopAtBeyond(d, name, vs, q);
    TouchedIncludes(name, vs, p, q);
    WalkKeys(d, name, me, vs);
    WalkEntries(d, name, me, vs, name[..vs[q]]);
  }

  /** The parent is the root exactly when no proper ancestor is registered as a logger. */
  lemma NearestLoggerRoot(d: map<string, Node>, name: string, me: object)
    requires NoAdjacentDots(name)
    ensures Walk(d, name, me, RFindDot(name, |name|)).1 == Root <==> NoLoggerFrom(d, name, 0)
  {
    var i0 := RFindDot(name, |name|);
    WalkVisits(d, name, me, i0);
    var vs := Visits(name, i0);
    var p := StopAt(d, name, vs);
    StopAtFirstLogger(d, name, vs);
    WalkParent(d, name, me, vs);
    if p < |vs| {
      VisitedIsAncestorEnd(name, p);
    } else {
      forall k | IsAncestorEnd(name, k)
        ensures !IsLoggerAt(d, name[..k])
      {
        VisitsComplete(name, i0, k);
      }
    }
  }

  /** Otherwise the parent is the logger at the longest proper ancestor registered as one. */
  lemma NearestLoggerParent(d: map<string, Node>, name: string, me: object, k: int)
    requires NoAdjacentDots(name)
    requires IsAncestorEnd(name, k) && IsLoggerAt(d, name[..k]) && NoLoggerFrom(d, name, k + 1)
    ensures Walk(d, name, me, RFindDot(name, |name|)).1 == LoggerParent(d[name[..k]].logger)
  {
    var i0 := RFindDot(name, |name|);
    WalkVisits(d, name, me, i0);
    var vs := Visits(name, i0);
    VisitsComplete(name, i0, k);
    var q :| 0 <= q < |vs| && vs[q] == k;
    forall r | 0 <= r < q
      ensures !IsLoggerAt(d, name[..vs[r]])
    {
      VisitedIsAncestorEnd(name, r);
    }
    StopAtIndex(d, name, vs, q);
    WalkParent(d, name, me, vs);
  }

  /** The walk stops at the first visited prefix registered as a logger. */
  lemma {:induction false} StopAtIndex(d: map<string, Node>, name: string, vs: seq<nat>, q: nat)
    requires Descending(name, vs) && q < |vs|
    requires IsLoggerAt(d, name[..vs[q]])
    requires forall r :: 0 <= r < q ==> !IsLoggerAt(d, name[..vs[r]])
    ensures StopAt(d, name, vs) == q
  {
    if q > 0 {
      assert !IsLoggerAt(d, name[..vs[0]]);
      assert vs[1..][q - 1] == vs[q];
      forall r | 0 <= r < q - 1
        ensures !IsLoggerAt(d, name[..vs[1..][r]])
      {
        assert vs[1..][r] == vs[r + 1];
      }
      StopAtIndex(d, name, vs[1..], q - 1);
    }
  }

  /**
   * Every proper ancestor longer than every registered logger ancestor becomes a placeholder
   * holding its old loggers and `me`.
   */
  lemma NearestLoggerPlaceholders(d: map<string, Node>, name: string, me: object, k: int)
    requires NoAdjacentDots(name)
    requires IsAncestorEnd(name, k) && NoLoggerFrom(d, name, k)
    ensures var r := Walk(d, name, me, RFindDot(name, |name|)).0;
      name[..k] in r && r[name[..k]] == PlaceHolder(Held(d, name[..k]) + {me})
  {
    var i0 := RFindDot(name, |name|);
    WalkVisits(d, name, me, i0);
    var vs := Visits(name, i0);
    VisitsComplete(name, i0, k);
    var q :| 0 <= q < |vs| && vs[q] == k;
    forall r | 0 <= r <= q
      ensures !IsLoggerAt(d, name[..vs[r]])
    {
      VisitedIsAncestorEnd(name, r);
    }
    PlaceholderAlong(d, name, me, vs, q);
  }

  /** The extra field every internal record carries. */
  const PREFAB_INTERNAL: string := "prefab_internal"

  /** Values a caller may put in `extra` (Python allows any object; three kinds stand for them). */
  datatype ExtraValue = Flag(b: bool) | Text(s: string) | Number(n: int)

  /** A record handed to the standard logger's `_log`. */
  datatype LogRecord = LogRecord(loggerName: string, level: int, msg: string, extra: map<string, ExtraValue>)

  function ExtraKeys(extra: Option<map<string, ExtraValue>>): set<string> {
    if extra.Some? then extra.value.Keys else {}
  }

  /** `InternalLogger`: a logger that registers itself in the manager's hierarchy. */
  class InternalLogger {
    const name: string
    const level: int
    var parent: Parent

    /**
     * `__init__`: registers the logger under its name, then walks its dotted ancestors from
     * the last dot, creating or extending placeholders until it meets a registered logger,
     * which becomes the parent (the root when there is none).
     */
    constructor (manager: LoggerManager, name: string, level: int := PY_NOTSET)
      modifies manager
      ensures this.name == name && this.level == level
      ensures (manager.loggerDict, parent) ==
        Walk(old(manager.loggerDict)[name := LoggerNode(this)], name, this, RFindDot(name, |name|))
      ensures name in manager.loggerDict && manager.loggerDict[name] == LoggerNode(this)
      ensures var d := old(manager.loggerDict)[name := LoggerNode(this)];
        var vs := Visits(name, RFindDot(name, |name|));
        var p := StopAt(d, name, vs);
        && manager.loggerDict.Keys == old(manager.loggerDict.Keys) + {name} + Touched(name, vs, p)
        && (if p < |vs| then IsLoggerAt(d, name[..vs[p]]) && parent == LoggerParent(d[name[..vs[p]]].logger)
            else parent == Root)
    {
      this.name := name;
      this.level := level;
      parent := Root;
      new;
      manager.loggerDict := manager.loggerDict[name := LoggerNode(this)];
      ghost var d0 := manager.loggerDict;
      var i := RFindDot(name, |name|);
      ghost var i0 := i;
      var rv: Option<object> := None;
      while i > 0 && rv == None
        invariant -1 <= i < |name|
        invariant i > 0 ==> name[i] == '.'
        invariant rv == None ==> Walk(manager.loggerDict, name, this, i) == Walk(d0, name, this, i0)
        invariant rv != None ==> (manager.loggerDict, LoggerParent(rv.value)) == Walk(d0, name, this, i0)
        decreases i + 1
      {
        var substr := name[..i];
        ghost var before := manager.loggerDict;
        if substr !in manager.loggerDict {
          manager.loggerDict := manager.loggerDict[substr := PlaceHolder({this})];
          assert Held(before, substr) + {this} == {this};
        } else {
          match manager.loggerDict[substr]
          case LoggerNode(obj) =>
            rv := Some(obj);
          case PlaceHolder(loggers) =>
            manager.loggerDict := manager.loggerDict[substr := PlaceHolder(loggers + {this})];
            assert Held(before, substr) == loggers;
        }
        assert rv == None ==> manager.loggerDict == before[substr := PlaceHolder(Held(before, substr) + {this})];
        i := RFindDot(name, i - 1);
      }
      if rv == None {
        parent := Root;
      } else {
        parent := LoggerParent(rv.value);
      }
      WalkVisits(d0, name, this, i0);
      ghost var vs := Visits(name, i0);
      WalkKeys(d0, name, this, vs);
      WalkEntries(d0, name, this, vs, name);
      WalkParent(d0, name, this, vs);
      ghost var p := StopAt(d0, name, vs);
      if name in Touched(name, vs, p) {
        TouchedAt(name, vs, p, name);
      }
    }

    /**
     * `_log`: unless the reentrancy flag is set, hands the record on with a copy of the
     * caller's `extra` (an empty dict for None) in which `prefab_internal` is True; while the
     * flag is set nothing is emitted. The caller's map is a value and is never changed.
     */
    method Log(reentrancy: ReentrancyCheck, level: int, msg: string, extra: Option<map<string, ExtraValue>>)
      returns (emitted: Option<LogRecord>)
      ensures emitted.None? <==> reentrancy.IsSet()
      ensures emitted.Some? ==>
        && emitted.value.loggerName == name && emitted.value.level == level && emitted.value.msg == msg
        && emitted.value.extra.Keys == ExtraKeys(extra) + {PREFAB_INTERNAL}
        && emitted.value.extra[PREFAB_INTERNAL] == Flag(true)
        && (forall k :: k in ExtraKeys(extra) && k != PREFAB_INTERNAL ==> emitted.value.extra[k] == extra.value[k])
    {
      if !reentrancy.IsSet() {
        var tagged: map<string, ExtraValue>;
        if extra.None? {
          tagged := map[];
        } else {
          tagged := extra.value;
        }
        tagged := tagged[PREFAB_INTERNAL := Flag(true)];
        emitted := Some(LogRecord(name, level, msg, tagged));
      } else {
        emitted := None;
      }
    }
  }

  /** The walk for "a..b" visits "a." and skips "a", although "a" is a dotted ancestor. */
  lemma AdjacentDotSkipped()
    ensures RFindDot("a..b", 4) == 2
    ensures Visits("a..b", 2) == [2]
    ensures "a" in IterateDottedString("a..b")
  {
    assert RFindDot("a..b", 1) == -1;
    AncestorsComplete("a..b", 1);
    assert "a..b"[..1] == "a";
  }
}
