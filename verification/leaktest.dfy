/** Option, as used for Go's "nil or error" returns. */
module Wrappers {
  datatype Option<+T> = None | Some(value: T)
}

/**
 * The text side of the goroutine-leak detector: reading goroutine ids out
 * of a full stack dump, filtering out the goroutines of the test harness
 * and of the runtime, diffing a later snapshot against the baseline, and
 * the teardown's poll-until-deadline decision. The dump, the later
 * snapshots, the clock and the test's state are inputs.
 */
module LeakTest {
  import opened Wrappers
  import opened Text
  import opened Strconv

  /** Goroutine id to the full text of its stack record (Go: map[int64]string). */
  type Snapshot = map<int, string>

  /** Records in a dump are separated by one blank line. */
  const RecordSeparator: string := "\n\n"

  /** len("goroutine "): the header characters ExtractGID skips without reading them. */
  const HeaderPrefixLength: nat := 10

  /** A stack starting with this belongs to the test runner itself. */
  const HarnessRunner: string := "testing.RunTests"

  /** A stack containing any of these belongs to the harness or the runtime. */
  const NoisePatterns: seq<string> := [
    "testing.Main(",
    "testing.tRunner(",
    "runtime.goexit",
    "created by runtime.gc",
    "interestingGoroutines",
    "runtime.MHeap_Scavenger",
    "signal.signal_recv",
    "sigterm.handler",
    "runtime_mcall",
    "goroutine in C code",
    "runtime.CPUProfile"
  ]

  const LeakPrefix: string := "Leaked goroutine: "

  // -----------------------------------------------------------------------
  // ExtractGID
  // -----------------------------------------------------------------------

  /**
   * ExtractGID slices off ten characters and then up to the next space;
   * Go panics unless both exist.
   */
  predicate HasGid(s: string) {
    |s| >= HeaderPrefixLength && ' ' in s[HeaderPrefixLength..]
  }

  /**
   * The id in a header `goroutine N [state]:`: the text between the first
   * ten characters and the next space, through ParseInt with the error
   * ignored (so a token that is not a number gives 0).
   */
  function ExtractGID(s: string): (gid: int)
    requires HasGid(s)
    ensures MinInt64 <= gid <= MaxInt64
  {
    var rest := s[HeaderPrefixLength..];
    ParseInt(rest[..IndexByte(rest, ' ')])
  }

  /** ExtractGID parses exactly the token between the first ten characters and the next space. */
  lemma ExtractGIDReadsToken(prefix: string, token: string, rest: string)
    requires |prefix| == HeaderPrefixLength && ' ' !in token
    ensures HasGid(prefix + token + " " + rest)
    ensures ExtractGID(prefix + token + " " + rest) == ParseInt(token)
  {
    var s := prefix + token + " " + rest;
    var tail := s[HeaderPrefixLength..];
    assert tail == token + " " + rest;
    assert tail[|token|] == ' ';
    var k := IndexByte(tail, ' ');
    assert tail[..k] == token;
  }

  /** A header `goroutine N ...` with N a decimal number in int64 range gives N. */
  lemma ExtractGIDOfHeader(token: string, rest: string)
    requires token != [] && AllDigits(token) && DecimalValue(token) <= MaxInt64
    ensures HasGid("goroutine " + token + " " + rest)
    ensures ExtractGID("goroutine " + token + " " + rest) == DecimalValue(token)
  {
    assert ' ' !in token;
    ExtractGIDReadsToken("goroutine ", token, rest);
    ParseIntOfDigits(token);
  }

  /** A header whose id token does not start with a digit or a sign gives 0. */
  lemma ExtractGIDOfNonNumber(token: string, rest: string)
    requires ' ' !in token
    requires token == [] || (!IsDigit(token[0]) && token[0] != '+' && token[0] != '-')
    ensures HasGid("goroutine " + token + " " + rest)
    ensures ExtractGID("goroutine " + token + " " + rest) == 0
  {
    ExtractGIDReadsToken("goroutine ", token, rest);
    assert [] + [] + token == token;
    ParseIntSyntaxErrorIsZero([], [], token);
  }

  // -----------------------------------------------------------------------
  // interestingGoroutines
  // -----------------------------------------------------------------------

  /** The stack part of a record: everything after its first line. */
  function Body(g: string): string
    requires '\n' in g
  {
    g[IndexByte(g, '\n') + 1..]
  }

  /** The record is its header line, a newline, and the body: strings.SplitN(g, "\n", 2). */
  lemma BodyAfterFirstLine(g: string)
    requires '\n' in g
    ensures var h := g[..|g| - |Body(g)| - 1];
      && '\n' !in h
      && g == h + "\n" + Body(g)
  {
    var i := IndexByte(g, '\n');
    assert g == g[..i] + "\n" + g[i + 1..];
  }

  /** The trimmed stack contains one of the noise patterns. */
  predicate IsNoise(stack: string) {
    exists i :: 0 <= i < |NoisePatterns| && Contains(stack, NoisePatterns[i])
  }

  /**
   * A record that survives every `continue` of the filter: it has a line
   * after its header, and its trimmed stack is neither empty, nor the test
   * runner's, nor noise.
   */
  predicate Interesting(g: string) {
    && '\n' in g
    && var stack := TrimSpace(Body(g));
       && !HasPrefix(stack, HarnessRunner)
       && stack != ""
       && !IsNoise(stack)
  }

  /** Every record the filter keeps has a header ExtractGID can slice; otherwise Go panics. */
  predicate HeadersParse(chunks: seq<string>) {
    forall g :: g in chunks && Interesting(g) ==> HasGid(g)
  }

  /**
   * The key a kept record is stored under: ExtractGID of it. Records whose
   * header ExtractGID cannot slice make Go panic; HeadersParse keeps them
   * out of every snapshot the loop builds, so the 0 here is never used.
   */
  function GidOf(g: string): (gid: int)
    ensures HasGid(g) ==> gid == ExtractGID(g)
  {
    if HasGid(g) then ExtractGID(g) else 0
  }

  /**
   * The map a filter loop builds from `chunks`, in order: every record
   * `keep` accepts is stored under `key` of it, a later record replacing
   * an earlier one with the same key.
   */
  function Collect(chunks: seq<string>, keep: string -> bool, key: string -> int): Snapshot
    decreases |chunks|
  {
    if chunks == [] then map[]
    else
      var n := |chunks| - 1;
      var prev := Collect(chunks[..n], keep, key);
      if keep(chunks[n]) then prev[key(chunks[n]) := chunks[n]] else prev
  }

  /** One more record: stored under its key if kept, otherwise nothing changes. */
  lemma CollectStep(chunks: seq<string>, keep: string -> bool, key: string -> int, i: nat)
    requires i < |chunks|
    ensures Collect(chunks[..i + 1], keep, key) ==
      if keep(chunks[i]) then Collect(chunks[..i], keep, key)[key(chunks[i]) := chunks[i]] else Collect(chunks[..i], keep, key)
  {
    assert chunks[..i + 1][..i] == chunks[..i];
  }

  /** Every stored value is a kept record of the input, stored under its own key. */
  lemma {:induction false} CollectValues(chunks: seq<string>, keep: string -> bool, key: string -> int)
    ensures forall id :: id in Collect(chunks, keep, key) ==>
      && Collect(chunks, keep, key)[id] in chunks
      && keep(Collect(chunks, keep, key)[id])
      && key(Collect(chunks, keep, key)[id]) == id
    decreases |chunks|
  {
    if chunks != [] {
      var n := |chunks| - 1;
      var prev := Collect(chunks[..n], keep, key);
      CollectValues(chunks[..n], keep, key);
      forall id | id in Collect(chunks, keep, key)
        ensures Collect(chunks, keep, key)[id] in chunks
      {
        if keep(chunks[n]) && id == key(chunks[n]) {
          assert Collect(chunks, keep, key)[id] == chunks[n];
        } else {
          var g := prev[id];
          assert Collect(chunks, keep, key)[id] == g;
          var i :| 0 <= i < n && chunks[..n][i] == g;
          assert chunks[i] == g;
        }
      }
    }
  }

  /** Every kept record's key is a key of the map. */
  lemma {:induction false} CollectKeys(chunks: seq<string>, keep: string -> bool, key: string -> int)
    ensures forall j :: 0 <= j < |chunks| && keep(chunks[j]) ==> key(chunks[j]) in Collect(chunks, keep, key)
    decreases |chunks|
  {
    if chunks != [] {
      var n := |chunks| - 1;
      var prev := Collect(chunks[..n], keep, key);
      var cur := Collect(chunks, keep, key);
      assert prev.Keys <= cur.Keys;
      CollectKeys(chunks[..n], keep, key);
      forall j | 0 <= j < n && keep(chunks[j])
        ensures key(chunks[j]) in cur
      {
        assert chunks[..n][j] == chunks[j];
      }
    }
  }

  /** Of the kept records sharing a key, the last one is stored. */
  lemma {:induction false} CollectLastWins(chunks: seq<string>, keep: string -> bool, key: string -> int, j: nat)
    requires j < |chunks| && keep(chunks[j])
    requires forall k :: j < k < |chunks| && keep(chunks[k]) ==> key(chunks[k]) != key(chunks[j])
    ensures key(chunks[j]) in Collect(chunks, keep, key)
    ensures Collect(chunks, keep, key)[key(chunks[j])] == chunks[j]
    decreases |chunks|
  {
    var n := |chunks| - 1;
    if j < n {
      forall k | j < k < n && keep(chunks[..n][k])
        ensures key(chunks[..n][k]) != key(chunks[..n][j])
      {
        assert chunks[..n][k] == chunks[k];
      }
      assert chunks[..n][j] == chunks[j];
      CollectLastWins(chunks[..n], keep, key, j);
    }
  }

  /** The records of a dump. */
  function Records(dump: string): seq<string> {
    Split(dump, RecordSeparator)
  }

  /** The snapshot of a dump: its kept records under their ids. */
  function Capture(dump: string): Snapshot {
    Collect(Records(dump), Interesting, GidOf)
  }

  /**
   * interestingGoroutines, given the text runtime.Stack wrote: splits on
   * blank lines, skips the records the filter rejects, and stores every
   * other record, unchanged, under its id; a later record replaces an
   * earlier one with the same id.
   */
  method InterestingGoroutines(dump: string) returns (gs: Snapshot)
    requires HeadersParse(Records(dump))
    ensures gs == Capture(dump)
  {
    var chunks := Split(dump, RecordSeparator);
    gs := map[];
    for i := 0 to |chunks|
      invariant gs == Collect(chunks[..i], Interesting, GidOf)
    {
      CollectStep(chunks, Interesting, GidOf, i);
      var g := chunks[i];
      if '\n' !in g {
        continue;
      }
      var stack := TrimSpace(Body(g));
      if HasPrefix(stack, HarnessRunner) {
        continue;
      }
      if stack == "" || IsNoise(stack) {
        continue;
      }
      assert g in chunks;
      gs := gs[ExtractGID(g) := g];
    }
    assert chunks[..|chunks|] == chunks;
  }

  /**
   * The snapshot of a dump: its keys are exactly the ids of the kept
   * records, and each value is a kept record, untrimmed, of the dump split
   * on blank lines, stored under its own id.
   */
  lemma CaptureContents(dump: string)
    ensures Join(Records(dump), RecordSeparator) == dump
    ensures forall id :: id in Capture(dump) <==>
      exists j :: 0 <= j < |Records(dump)| && Interesting(Records(dump)[j]) && GidOf(Records(dump)[j]) == id
    ensures forall id :: id in Capture(dump) ==>
      Capture(dump)[id] in Records(dump) && Interesting(Capture(dump)[id]) && GidOf(Capture(dump)[id]) == id
  {
    var chunks := Records(dump);
    SplitJoin(dump, RecordSeparator);
    CollectValues(chunks, Interesting, GidOf);
    CollectKeys(chunks, Interesting, GidOf);
    forall id | id in Capture(dump)
      ensures exists j :: 0 <= j < |chunks| && Interesting(chunks[j]) && GidOf(chunks[j]) == id
    {
      var g := Capture(dump)[id];
      var j :| 0 <= j < |chunks| && chunks[j] == g;
    }
  }

  /** Where Go does not panic, every stored record sits under ExtractGID of itself. */
  lemma CaptureKeyedByExtractGID(dump: string)
    requires HeadersParse(Records(dump))
    ensures forall id :: id in Capture(dump) ==> HasGid(Capture(dump)[id]) && ExtractGID(Capture(dump)[id]) == id
  {
    CaptureContents(dump);
  }

  /** When several kept records of a dump share an id, the snapshot holds the last of them. */
  lemma CaptureLastWins(dump: string, j: nat)
    requires j < |Records(dump)| && Interesting(Records(dump)[j])
    requires forall k :: j < k < |Records(dump)| && Interesting(Records(dump)[k]) ==>
      GidOf(Records(dump)[k]) != GidOf(Records(dump)[j])
    ensures GidOf(Records(dump)[j]) in Capture(dump)
    ensures Capture(dump)[GidOf(Records(dump)[j])] == Records(dump)[j]
  {
    CollectLastWins(Records(dump), Interesting, GidOf, j);
  }

  // -----------------------------------------------------------------------
  // diffGoroutines
  // -----------------------------------------------------------------------

  /** The entries of `current` whose id `base` does not have. */
  function Leaks(base: Snapshot, current: Snapshot): Snapshot {
    map id | id in current && id !in base :: current[id]
  }

  /** Some key of a non-empty map. */
  ghost function Pick(m: Snapshot): (k: int)
    requires m != map[]
    ensures k in m
  {
    assert exists k :: k in m by {
      if forall k :: k !in m {
        assert false;
      }
    }
    var k :| k in m; k
  }

  /** The values of a map in some order: the order Go's map iteration happens to yield. */
  ghost function Values(m: Snapshot): seq<string>
    decreases |m|
  {
    if m == map[] then []
    else
      var k := Pick(m);
      assert (m - {k}).Keys == m.Keys - {k};
      Values(m - {k}) + [m[k]]
  }

  /** Whatever key is taken out first, the values form the same multiset. */
  lemma {:induction false} ValuesRemove(m: Snapshot, k: int)
    requires k in m
    ensures multiset(Values(m)) == multiset(Values(m - {k})) + multiset{m[k]}
    decreases |m|
  {
    var k' := Pick(m);
    var mk' := m - {k'};
    assert mk'.Keys == m.Keys - {k'};
    assert Values(m) == Values(mk') + [m[k']];
    if k' != k {
      var mk := m - {k};
      assert mk.Keys == m.Keys - {k};
      var both := mk' - {k};
      assert both == mk - {k'};
      assert mk'[k] == m[k] && mk[k'] == m[k'];
      ValuesRemove(mk', k);
      ValuesRemove(mk, k');
      assert multiset(Values(m)) == multiset(Values(both)) + multiset{m[k]} + multiset{m[k']};
    } else {
      assert mk' == m - {k};
    }
  }

  /** One value per key, and every value of the map appears. */
  lemma {:induction false} ValuesOfMap(m: Snapshot)
    ensures |Values(m)| == |m|
    ensures forall s :: s in Values(m) <==> s in m.Values
    decreases |m|
  {
    if m != map[] {
      var k := Pick(m);
      var rest := m - {k};
      assert rest.Keys == m.Keys - {k};
      ValuesOfMap(rest);
      assert Values(m) == Values(rest) + [m[k]];
      assert m.Values == rest.Values + {m[k]} by {
        forall s | s in m.Values ensures s in rest.Values + {m[k]} {
          if forall k' :: k' in m ==> m[k'] != s {
            assert false;
          }
          var k' :| k' in m && m[k'] == s;
          if k' != k {
            assert k' in rest;
          }
        }
      }
    }
  }

  /** The keys of `m` whose value is `s`. */
  function KeysOf(m: Snapshot, s: string): set<int> {
    set k | k in m && m[k] == s
  }

  /** A value occurs in the walk as often as there are keys holding it. */
  lemma {:induction false} ValuesCount(m: Snapshot, s: string)
    ensures multiset(Values(m))[s] == |KeysOf(m, s)|
    decreases |m|
  {
    if m == map[] {
      assert KeysOf(m, s) == {};
    } else {
      var k := Pick(m);
      var rest := m - {k};
      assert rest.Keys == m.Keys - {k};
      ValuesRemove(m, k);
      ValuesCount(rest, s);
      KeysOfRemove(m, k, s);
    }
  }

  /** Taking key `k` out of `m` takes `k`, and nothing else, out of the keys holding `m[k]`. */
  lemma KeysOfRemove(m: Snapshot, k: int, s: string)
    requires k in m
    ensures k !in KeysOf(m - {k}, s)
    ensures KeysOf(m, s) == if m[k] == s then KeysOf(m - {k}, s) + {k} else KeysOf(m - {k}, s)
  {
  }

  /** The multiset of values after one more entry is visited. */
  lemma LeaksStep(base: Snapshot, current: Snapshot, unvisited: set<int>, id: int)
    requires id in unvisited && unvisited <= current.Keys
    ensures multiset(Values(Leaks(base, current) - (unvisited - {id}))) ==
      multiset(Values(Leaks(base, current) - unvisited)) + (if id in base then multiset{} else multiset{current[id]})
  {
    var before := Leaks(base, current) - unvisited;
    var after := Leaks(base, current) - (unvisited - {id});
    if id !in base {
      assert id in after && after[id] == current[id];
      assert after - {id} == before;
      ValuesRemove(after, id);
    } else {
      assert after == before;
    }
  }

  /** The leaked stacks, sorted: the same whatever order the map was walked in. */
  ghost function SortedLeaks(base: Snapshot, current: Snapshot): seq<string> {
    Sort(Values(Leaks(base, current)))
  }

  /** One line of the report. */
  function Entry(g: string): string {
    LeakPrefix + g + "\n\n"
  }

  /** The report: the entries of the leaked stacks, in order, back to back. */
  function Message(leaked: seq<string>): string {
    if leaked == [] then "" else Message(leaked[..|leaked| - 1]) + Entry(leaked[|leaked| - 1])
  }

  /** Writing one more entry extends the report by that entry. */
  lemma MessageStep(leaked: seq<string>, i: nat)
    requires i < |leaked|
    ensures Message(leaked[..i + 1]) == Message(leaked[..i]) + Entry(leaked[i])
  {
    assert leaked[..i + 1][..i] == leaked[..i];
  }

  /** diffGoroutines' result: nil without leaks, otherwise the report. */
  ghost function DiffReport(base: Snapshot, current: Snapshot): Option<string> {
    var leaked := SortedLeaks(base, current);
    if leaked == [] then None else Some(Message(leaked))
  }

  /** Sorting the stacks collected in any order gives the sorted leaks. */
  lemma SortCollected(base: Snapshot, current: Snapshot, leaked: seq<string>)
    requires multiset(leaked) == multiset(Values(Leaks(base, current)))
    ensures leaked == [] <==> SortedLeaks(base, current) == []
    ensures Sort(leaked) == SortedLeaks(base, current)
  {
    var all := Values(Leaks(base, current));
    assert |leaked| == |multiset(leaked)| == |multiset(Sort(all))| == |Sort(all)|;
    SortedUnique(Sort(leaked), Sort(all));
  }

  /** The report, from the leaked stacks collected in any order. */
  lemma DiffReportOf(base: Snapshot, current: Snapshot, leaked: seq<string>)
    requires multiset(leaked) == multiset(Values(Leaks(base, current)))
    ensures DiffReport(base, current) == if leaked == [] then None else Some(Message(Sort(leaked)))
  {
    SortCollected(base, current, leaked);
  }

  /**
   * diffGoroutines' walk over the current map, in an order it does not
   * control: collects the stack of every id the base lacks.
   */
  method CollectLeaks(base: Snapshot, current: Snapshot) returns (leaked: seq<string>)
    ensures multiset(leaked) == multiset(Values(Leaks(base, current)))
  {
    leaked := [];
    var unvisited := current.Keys;
    while unvisited != {}
      invariant unvisited <= current.Keys
      invariant multiset(leaked) == multiset(Values(Leaks(base, current) - unvisited))
      decreases unvisited
    {
      if forall id :: id !in unvisited {
        assert false;
      }
      var id :| id in unvisited;
      LeaksStep(base, current, unvisited, id);
      if id !in base {
        leaked := leaked + [current[id]];
      }
      unvisited := unvisited - {id};
    }
    assert Leaks(base, current) - {} == Leaks(base, current);
  }

  /**
   * diffGoroutines, with the current snapshot as an argument: collects the
   * stacks whose id the base lacks, returns nil when there are none, and
   * otherwise sorts them and writes their entries one after another.
   */
  method DiffGoroutines(base: Snapshot, current: Snapshot) returns (err: Option<string>)
    ensures err == DiffReport(base, current)
  {
    var leaked := CollectLeaks(base, current);
    DiffReportOf(base, current, leaked);
    if leaked == [] {
      return None;
    }
    var b := WriteEntries(Sort(leaked));
    err := Some(b);
  }

  /** The strings.Builder loop: writes the entries of `leaked` one after another. */
  method WriteEntries(leaked: seq<string>) returns (b: string)
    ensures b == Message(leaked)
  {
    b := "";
    for i := 0 to |leaked|
      invariant b == Message(leaked[..i])
    {
      MessageStep(leaked, i);
      b := b + Entry(leaked[i]);
    }
    assert leaked[..|leaked|] == leaked;
  }

  /**
   * The leaked list is sorted, holds one stack per current id missing
   * from the base, and holds exactly those stacks.
   */
  lemma LeakedStacks(base: Snapshot, current: Snapshot)
    ensures Sorted(SortedLeaks(base, current))
    ensures |SortedLeaks(base, current)| == |current.Keys - base.Keys|
    ensures forall s :: s in SortedLeaks(base, current) <==>
      exists id :: id in current && id !in base && current[id] == s
  {
    var m := Leaks(base, current);
    ValuesOfMap(m);
    var leaked := SortedLeaks(base, current);
    assert multiset(leaked) == multiset(Values(m));
    assert m.Keys == current.Keys - base.Keys;
    assert |leaked| == |multiset(leaked)| == |Values(m)| == |m| == |m.Keys|;
    forall s ensures s in leaked <==> exists id :: id in current && id !in base && current[id] == s {
      if s in leaked {
        assert s in multiset(leaked);
        assert s in Values(m);
        if forall id :: id in m ==> m[id] != s {
          assert false;
        }
        var id :| id in m && m[id] == s;
        assert id in current && id !in base && current[id] == s;
      }
      if id :| id in current && id !in base && current[id] == s {
        assert id in m && m[id] == s;
        assert s in Values(m);
        assert s in multiset(Values(m));
        assert s in multiset(leaked);
      }
    }
  }

  /** Each stack occurs in the leaked list once per current id, missing from the base, that holds it. */
  lemma LeakedMultiplicity(base: Snapshot, current: Snapshot)
    ensures forall s ::
      multiset(SortedLeaks(base, current))[s] == |set id | id in current && id !in base && current[id] == s|
  {
    var m := Leaks(base, current);
    assert multiset(SortedLeaks(base, current)) == multiset(Values(m));
    forall s ensures multiset(Values(m))[s] == |set id | id in current && id !in base && current[id] == s| {
      ValuesCount(m, s);
      KeysOfLeaks(base, current, s);
    }
  }

  /** The ids of the leaked map holding `s` are the current ids, missing from the base, that hold it. */
  lemma KeysOfLeaks(base: Snapshot, current: Snapshot, s: string)
    ensures KeysOf(Leaks(base, current), s) == set id | id in current && id !in base && current[id] == s
  {
  }

  /** No error exactly when every current id is already in the base. */
  lemma DiffCleanIff(base: Snapshot, current: Snapshot)
    ensures DiffReport(base, current).None? <==> current.Keys <= base.Keys
  {
    LeakedStacks(base, current);
    if current.Keys <= base.Keys {
      assert current.Keys - base.Keys == {};
    } else {
      if forall id :: id in current ==> id in base {
        assert false;
      }
      var id :| id in current && id !in base;
      assert id in current.Keys - base.Keys;
    }
  }

  /** Only the base's ids matter: its stack texts are never looked at. */
  lemma DiffIgnoresBaseStacks(base1: Snapshot, base2: Snapshot, current: Snapshot)
    requires base1.Keys == base2.Keys
    ensures DiffReport(base1, current) == DiffReport(base2, current)
  {
    assert Leaks(base1, current) == Leaks(base2, current);
  }

  /** The report names every leaked stack in full. */
  lemma {:induction false} MessageMentions(leaked: seq<string>, g: string)
    requires g in leaked
    ensures Contains(Message(leaked), Entry(g))
    decreases |leaked|
  {
    var n := |leaked| - 1;
    var prev := Message(leaked[..n]);
    var msg := Message(leaked);
    assert msg == prev + Entry(leaked[n]);
    if leaked[n] == g {
      assert msg[|prev|..|prev| + |Entry(g)|] == Entry(g);
      OccursAtContains(msg, Entry(g), |prev|);
    } else {
      var i :| 0 <= i < |leaked| && leaked[i] == g;
      assert leaked[..n][i] == g;
      MessageMentions(leaked[..n], g);
      var p := Index(prev, Entry(g));
      assert msg[p..p + |Entry(g)|] == prev[p..p + |Entry(g)|];
      OccursAtContains(msg, Entry(g), p);
    }
  }

  // -----------------------------------------------------------------------
  // AfterTest's teardown
  // -----------------------------------------------------------------------

  /**
   * The inputs the teardown loop reads at its successive checks: the
   * snapshot taken at check i, and whether the deadline had passed by then.
   * Real time runs on while the loop sleeps, so the deadline has passed by
   * the last check supplied.
   */
  predicate Oracles(polls: seq<Snapshot>, passed: seq<bool>) {
    |polls| == |passed| && |polls| > 0 && passed[|passed| - 1]
  }

  /** The loop leaves at check i: the diff is clean or the deadline has passed. */
  ghost predicate Stops(orig: Snapshot, polls: seq<Snapshot>, passed: seq<bool>, i: nat)
    requires i < |polls| == |passed|
  {
    DiffReport(orig, polls[i]).None? || passed[i]
  }

  /** The first check, from i on, at which the loop leaves. */
  ghost function StopIndex(orig: Snapshot, polls: seq<Snapshot>, passed: seq<bool>, i: nat): (k: nat)
    requires Oracles(polls, passed) && i < |polls|
    ensures i <= k < |polls| && Stops(orig, polls, passed, k)
    ensures forall j :: i <= j < k ==> !Stops(orig, polls, passed, j)
    decreases |polls| - i
  {
    if Stops(orig, polls, passed, i) then i else StopIndex(orig, polls, passed, i + 1)
  }

  /** A check that stops, with none before it stopping, is the stop index. */
  lemma StopIndexIsFirst(orig: Snapshot, polls: seq<Snapshot>, passed: seq<bool>, k: nat)
    requires Oracles(polls, passed) && k < |polls|
    requires Stops(orig, polls, passed, k)
    requires forall j :: 0 <= j < k ==> !Stops(orig, polls, passed, j)
    ensures StopIndex(orig, polls, passed, 0) == k
  {
  }

  /** The errors the teardown reports through t.Error. */
  ghost function TeardownErrors(orig: Snapshot, failed: bool, polls: seq<Snapshot>, passed: seq<bool>): seq<string>
    requires Oracles(polls, passed)
  {
    if failed then []
    else
      match DiffReport(orig, polls[StopIndex(orig, polls, passed, 0)])
      case None => []
      case Some(msg) => [msg]
  }

  /**
   * The deferred closure AfterTest returns (after the panic re-raise):
   * nothing if the test already failed; otherwise diff, and on a leak
   * sleep and diff again until the diff is clean or the deadline has
   * passed, reporting the last diff's error in the latter case.
   * `checks` counts the diffs taken.
   */
  method Teardown(orig: Snapshot, failed: bool, polls: seq<Snapshot>, passed: seq<bool>)
    returns (errors: seq<string>, checks: nat)
    requires Oracles(polls, passed)
    ensures failed ==> errors == [] && checks == 0
    ensures !failed ==> checks == StopIndex(orig, polls, passed, 0) + 1
    ensures errors == TeardownErrors(orig, failed, polls, passed)
    ensures |errors| <= 1
    ensures errors != [] ==> checks > 0 && passed[checks - 1]
  {
    errors, checks := [], 0;
    if failed {
      return;
    }
    while true
      invariant checks < |polls|
      invariant forall j :: 0 <= j < checks ==> !Stops(orig, polls, passed, j)
      invariant errors == []
      decreases |polls| - checks
    {
      var err := DiffGoroutines(orig, polls[checks]);
      if err.Some? {
        if !passed[checks] {
          assert !Stops(orig, polls, passed, checks);
          checks := checks + 1;
          continue;
        }
        errors := errors + [err.value];
      }
      assert Stops(orig, polls, passed, checks);
      StopIndexIsFirst(orig, polls, passed, checks);
      checks := checks + 1;
      break;
    }
  }

  /**
   * AfterTest: the baseline is the snapshot of the dump at setup; the
   * returned closure is the teardown run against it.
   */
  method AfterTest(setupDump: string, failed: bool, polls: seq<Snapshot>, passed: seq<bool>)
    returns (errors: seq<string>)
    requires HeadersParse(Records(setupDump))
    requires Oracles(polls, passed)
    ensures errors == TeardownErrors(Capture(setupDump), failed, polls, passed)
  {
    var orig := InterestingGoroutines(setupDump);
    var checks;
    errors, checks := Teardown(orig, failed, polls, passed);
  }

  /** A leak that clears before the deadline is never reported. */
  lemma CleanBeforeDeadline(orig: Snapshot, polls: seq<Snapshot>, passed: seq<bool>, j: nat)
    requires Oracles(polls, passed) && j < |polls|
    requires polls[j].Keys <= orig.Keys
    requires forall i :: 0 <= i < j ==> !passed[i]
    ensures TeardownErrors(orig, false, polls, passed) == []
  {
    DiffCleanIff(orig, polls[j]);
    assert Stops(orig, polls, passed, j);
    var k := StopIndex(orig, polls, passed, 0);
    assert k <= j;
  }

  /**
   * A goroutine that never finishes is reported, once, at the first check
   * after the deadline, and the report carries its full stack.
   */
  lemma PersistentLeakReported(orig: Snapshot, polls: seq<Snapshot>, passed: seq<bool>, id: int, stack: string)
    requires Oracles(polls, passed)
    requires id !in orig
    requires forall i :: 0 <= i < |polls| ==> id in polls[i] && polls[i][id] == stack
    ensures |TeardownErrors(orig, false, polls, passed)| == 1
    ensures passed[StopIndex(orig, polls, passed, 0)]
    ensures Contains(TeardownErrors(orig, false, polls, passed)[0], Entry(stack))
  {
    var k := StopIndex(orig, polls, passed, 0);
    DiffCleanIff(orig, polls[k]);
    LeakedStacks(orig, polls[k]);
    assert stack in SortedLeaks(orig, polls[k]);
    MessageMentions(SortedLeaks(orig, polls[k]), stack);
  }
}
