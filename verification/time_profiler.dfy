/** The hierarchical time-trace profiler: its string escaper, the Begin/End
    section stack with its per-name totals, the trace writer's ordering and
    accounting, and the lifecycle of the single profiler instance.

    Clock readings are passed in as integer microseconds; the output stream
    is replaced by the list of trace events the writer would print. */
module TimeProfiler {
  import opened Wrappers

  // ---------------------------------------------------------------------
  // EscapeString
  // ---------------------------------------------------------------------

  /** The characters written as a backslash followed by the same raw
      character: quote, backslash, backspace, form feed, newline,
      carriage return and tab. */
  predicate IsBackslashed(c: char) {
    c == '"' || c == '\\' || c as int == 8 || c as int == 12 ||
    c == '\n' || c == '\r' || c == '\t'
  }

  /** The characters copied unchanged: codes 32 to 125.  The tilde (126),
      DEL and every other control or non-ASCII byte are dropped. */
  predicate IsPlain(c: char) {
    32 <= c as int < 126
  }

  /** What one input character becomes in the output. */
  function EscapeChar(c: char): string {
    if IsBackslashed(c) then ['\\', c]
    else if IsPlain(c) then [c]
    else []
  }

  /** EscapeString: walks the C string up to its terminating NUL. */
  function Escape(src: string): (r: string)
    ensures |r| <= 2 * |src|
    ensures forall i :: 0 <= i < |r| ==> IsBackslashed(r[i]) || IsPlain(r[i])
  {
    if |src| == 0 || src[0] == '\0' then []
    else EscapeChar(src[0]) + Escape(src[1..])
  }

  /** The characters of `src` (before its NUL) that survive escaping. */
  function Kept(src: string): string {
    if |src| == 0 || src[0] == '\0' then []
    else (if IsBackslashed(src[0]) || IsPlain(src[0]) then [src[0]] else [])
         + Kept(src[1..])
  }

  /** Reads escaped text back: a backslash takes the next character
      literally, anything else stands for itself. */
  function Unescape(t: string): string {
    if |t| == 0 then []
    else if t[0] == '\\' && |t| >= 2 then [t[1]] + Unescape(t[2..])
    else [t[0]] + Unescape(t[1..])
  }

  /** Escaped text is a sequence of tokens, each either a backslash
      followed by a backslashed character, or a single plain character
      that needs no backslash.  So no quote or backslash appears bare. */
  predicate WellEscaped(t: string) {
    if |t| == 0 then true
    else if t[0] == '\\' then |t| >= 2 && IsBackslashed(t[1]) && WellEscaped(t[2..])
    else IsPlain(t[0]) && !IsBackslashed(t[0]) && WellEscaped(t[1..])
  }

  lemma {:induction false} EscapeWellFormed(src: string)
    ensures WellEscaped(Escape(src))
  {
    if |src| == 0 || src[0] == '\0' {
    } else {
      var c := src[0];
      var rest := Escape(src[1..]);
      EscapeWellFormed(src[1..]);
      var t := EscapeChar(c) + rest;
      if IsBackslashed(c) {
        assert t[2..] == rest;
      } else if IsPlain(c) {
        assert t[1..] == rest;
      } else {
        assert t == rest;
      }
    }
  }

  /** Round trip: reading the escaped text back yields exactly the
      characters the escaper kept, in order. */
  lemma {:induction false} UnescapeEscape(src: string)
    ensures Unescape(Escape(src)) == Kept(src)
  {
    if |src| == 0 || src[0] == '\0' {
    } else {
      var c := src[0];
      var rest := Escape(src[1..]);
      UnescapeEscape(src[1..]);
      var t := EscapeChar(c) + rest;
      if IsBackslashed(c) {
        assert t[0] == '\\' && t[1] == c && t[2..] == rest;
      } else if IsPlain(c) {
        assert t[0] == c && t[1..] == rest;
      } else {
        assert t == rest;
      }
    }
  }

  // ---------------------------------------------------------------------
  // The profiler object
  // ---------------------------------------------------------------------

  /** Sections lasting at most this many microseconds are not recorded. */
  const MinRecordedMicros := 500

  /** A section: start time and duration in microseconds, name and detail. */
  datatype Entry = Entry(start: int, duration: int, name: string, detail: string)

  datatype Profiler = Profiler(
    stack: seq<Entry>,                  // open sections, innermost last
    entries: seq<Entry>,                // closed sections kept for the trace
    totalPerName: map<string, int>,     // summed durations, topmost only
    countPerName: map<string, nat>,     // number of sections summed
    startTime: int)

  /** Totals and counts are kept for the same names, and every count is at
      least one, so the writer's average never divides by zero. */
  predicate Valid(p: Profiler) {
    && p.totalPerName.Keys == p.countPerName.Keys
    && (forall n :: n in p.countPerName ==> p.countPerName[n] >= 1)
  }

  function NewProfiler(now: int): (p: Profiler)
    ensures Valid(p) && p.stack == [] && p.entries == []
    ensures p.totalPerName == map[] && p.countPerName == map[] && p.startTime == now
  {
    Profiler([], [], map[], map[], now)
  }

  /** Begin opens a section at time `now`. */
  function Begin(p: Profiler, name: string, detail: string, now: int): (q: Profiler)
    ensures |q.stack| == |p.stack| + 1 && q.stack[..|p.stack|] == p.stack
    ensures q.stack[|p.stack|] == Entry(now, 0, name, detail)
    ensures q.entries == p.entries && q.totalPerName == p.totalPerName
    ensures q.countPerName == p.countPerName && q.startTime == p.startTime
    ensures Valid(p) ==> Valid(q)
  {
    p.(stack := p.stack + [Entry(now, 0, name, detail)])
  }

  /** No open section strictly below the top of the stack has this name. */
  predicate IsTopmost(stack: seq<Entry>, name: string) {
    forall i :: 0 <= i < |stack| - 1 ==> stack[i].name != name
  }

  /** The top section, with its duration measured at time `now`. */
  function Closing(p: Profiler, now: int): (e: Entry)
    requires |p.stack| > 0
  {
    var top := p.stack[|p.stack| - 1];
    top.(duration := now - top.start)
  }

  /** End closes the innermost open section at time `now`. */
  function End(p: Profiler, now: int): (q: Profiler)
    requires |p.stack| > 0
    ensures q.stack == p.stack[..|p.stack| - 1]
    ensures var e := Closing(p, now);
      && (e.duration > MinRecordedMicros ==> q.entries == p.entries + [e])
      && (e.duration <= MinRecordedMicros ==> q.entries == p.entries)
    ensures var n := p.stack[|p.stack| - 1].name;
      && (forall m :: m != n ==> (m in q.totalPerName <==> m in p.totalPerName))
      && (forall m :: m != n && m in p.totalPerName ==>
            q.totalPerName[m] == p.totalPerName[m])
      && (forall m :: m != n && m in p.countPerName ==>
            m in q.countPerName && q.countPerName[m] == p.countPerName[m])
      && (!IsTopmost(p.stack, n) ==>
            q.totalPerName == p.totalPerName && q.countPerName == p.countPerName)
      && (IsTopmost(p.stack, n) ==>
            n in q.countPerName && n in q.totalPerName &&
            q.countPerName[n] == (if n in p.countPerName then p.countPerName[n] else 0) + 1 &&
            q.totalPerName[n] == (if n in p.totalPerName then p.totalPerName[n] else 0)
                                 + (now - p.stack[|p.stack| - 1].start))
    ensures q.startTime == p.startTime
    ensures Valid(p) ==> Valid(q)
  {
    var e := Closing(p, now);
    var entries := if e.duration > MinRecordedMicros then p.entries + [e] else p.entries;
    var topmost := IsTopmost(p.stack, e.name);
    var total := if e.name in p.totalPerName then p.totalPerName[e.name] else 0;
    var count := if e.name in p.countPerName then p.countPerName[e.name] else 0;
    Profiler(
      p.stack[..|p.stack| - 1],
      entries,
      if topmost then p.totalPerName[e.name := total + e.duration] else p.totalPerName,
      if topmost then p.countPerName[e.name := count + 1] else p.countPerName,
      p.startTime)
  }

  /** Nested sections of one name are summed once: opening a name that is
      not open, opening it again inside, and closing both adds exactly one
      to its count and only the outer duration to its total. */
  lemma NestedSameNameCountedOnce(p: Profiler, n: string, d1: string, d2: string,
                                  t0: int, t1: int, t2: int, t3: int)
    requires Valid(p)
    requires forall i :: 0 <= i < |p.stack| ==> p.stack[i].name != n
    ensures var q := End(End(Begin(Begin(p, n, d1, t0), n, d2, t1), t2), t3);
      && q.stack == p.stack
      && n in q.countPerName
      && q.countPerName[n] == (if n in p.countPerName then p.countPerName[n] else 0) + 1
      && q.totalPerName[n] == (if n in p.totalPerName then p.totalPerName[n] else 0) + (t3 - t0)
  {
    var a := Begin(p, n, d1, t0);
    var b := Begin(a, n, d2, t1);
    var c := End(b, t2);
    assert b.stack[|a.stack| - 1].name == n;
    assert !IsTopmost(b.stack, n);
    assert c.stack == a.stack;
    assert IsTopmost(c.stack, n);
  }

  // ---------------------------------------------------------------------
  // Write
  // ---------------------------------------------------------------------

  /** One line of the trace file. */
  datatype TraceEvent =
    | SectionEvent(ts: int, dur: int, name: string, detail: string)    // tid 0
    | TotalEvent(tid: nat, dur: int, key: string, title: string, count: nat, avgMs: int)
    | ProcessNameEvent

  /** The writer's average: the signed microsecond count is converted to
      the unsigned 64-bit type of the count before both divisions. */
  function AverageMillis(durUs: int, count: nat): int
    requires count >= 1
  {
    (durUs % 0x1_0000_0000_0000_0000) / count / 1000
  }

  predicate NonIncreasing(s: seq<(string, int)>) {
    forall i, j :: 0 <= i < j < |s| ==> s[i].1 >= s[j].1
  }

  function InsertByDuration(x: (string, int), s: seq<(string, int)>): (r: seq<(string, int)>)
    requires NonIncreasing(s)
    ensures NonIncreasing(r)
    ensures multiset(r) == multiset(s) + multiset{x}
    ensures |r| == |s| + 1
    ensures r[0] == x || (|s| > 0 && r[0] == s[0])
  {
    if |s| == 0 then [x]
    else if x.1 >= s[0].1 then [x] + s
    else
      assert s == [s[0]] + s[1..];
      [s[0]] + InsertByDuration(x, s[1..])
  }

  /** Orders totals from the longest to the shortest. */
  function SortByDuration(s: seq<(string, int)>): (r: seq<(string, int)>)
    ensures NonIncreasing(r)
    ensures multiset(r) == multiset(s)
    ensures |r| == |s|
  {
    if |s| == 0 then []
    else
      assert s == [s[0]] + s[1..];
      InsertByDuration(s[0], SortByDuration(s[1..]))
  }

  /** The event printed for one closed section. */
  function SectionOf(p: Profiler, e: Entry): TraceEvent {
    SectionEvent(e.start - p.startTime, e.duration, Escape(e.name), Escape(e.detail))
  }

  /** Lists the (name, total) pairs of a map, each name once, in an
      unspecified order, as iterating the hash map does. */
  method ListTotals(totals: map<string, int>) returns (pairs: seq<(string, int)>)
    ensures |pairs| == |totals.Keys|
    ensures forall i :: 0 <= i < |pairs| ==> pairs[i].0 in totals && pairs[i].1 == totals[pairs[i].0]
    ensures forall n :: n in totals ==> exists i :: 0 <= i < |pairs| && pairs[i].0 == n
  {
    var keys := totals.Keys;
    var rest := keys;
    pairs := [];
    while rest != {}
      invariant rest <= keys
      invariant |pairs| + |rest| == |keys|
      invariant forall i :: 0 <= i < |pairs| ==>
        pairs[i].0 in keys && pairs[i].0 !in rest && pairs[i].1 == totals[pairs[i].0]
      invariant forall n :: n in keys ==> n in rest || exists i :: 0 <= i < |pairs| && pairs[i].0 == n
      decreases rest
    {
      var k :| k in rest;
      var before := pairs;
      pairs := pairs + [(k, totals[k])];
      rest := rest - {k};
      assert forall i :: 0 <= i < |before| ==> pairs[i] == before[i];
      assert pairs[|before|].0 == k;
    }
  }

  /** The total event for name `n` on thread `tid`: its total, its count,
      the escaped "Total <name>" title and the average in milliseconds. */
  function TotalEventOf(p: Profiler, n: string, tid: nat): TraceEvent
    requires Valid(p) && n in p.totalPerName
  {
    TotalEvent(tid, p.totalPerName[n], n, "Total " + Escape(n), p.countPerName[n],
               AverageMillis(p.totalPerName[n], p.countPerName[n]))
  }

  /** The duration an event reports (zero for the process-name record). */
  function EventDuration(e: TraceEvent): int {
    if e.ProcessNameEvent? then 0 else e.dur
  }

  /** Every event of `t` is the total of some name of `p`, on thread
      id (position + 1). */
  predicate TotalsNumbered(p: Profiler, t: seq<TraceEvent>)
    requires Valid(p)
  {
    forall i :: 0 <= i < |t| ==>
      t[i].TotalEvent? && t[i].key in p.totalPerName && t[i] == TotalEventOf(p, t[i].key, i + 1)
  }

  /** Durations never increase along `t`. */
  predicate TotalsOrdered(t: seq<TraceEvent>) {
    forall i, j :: 0 <= i < j < |t| ==> EventDuration(t[i]) >= EventDuration(t[j])
  }

  /** Every name of `p` has its total somewhere in `t`. */
  predicate TotalsCover(p: Profiler, t: seq<TraceEvent>)
    requires Valid(p)
  {
    forall n :: n in p.totalPerName ==> exists i :: 0 <= i < |t| && t[i] == TotalEventOf(p, n, i + 1)
  }

  /** The totals block of the trace: one event per name of the map, thread
      ids 1, 2, 3, ..., durations from the longest to the shortest. */
  predicate TotalsBlock(p: Profiler, t: seq<TraceEvent>)
    requires Valid(p)
  {
    |t| == |p.totalPerName.Keys| && TotalsNumbered(p, t) && TotalsOrdered(t) && TotalsCover(p, t)
  }

  /** The section events, one per recorded entry, in recording order. */
  function SectionEvents(p: Profiler): (r: seq<TraceEvent>)
    ensures |r| == |p.entries|
    ensures forall i :: 0 <= i < |r| ==> r[i] == SectionOf(p, p.entries[i])
  {
    seq(|p.entries|, i requires 0 <= i < |p.entries| => SectionOf(p, p.entries[i]))
  }

  /** Builds the totals block from the (name, total) pairs sorted by
      decreasing duration. */
  method TotalEvents(p: Profiler, pairs: seq<(string, int)>) returns (t: seq<TraceEvent>)
    requires Valid(p)
    requires |pairs| == |p.totalPerName.Keys|
    requires forall i :: 0 <= i < |pairs| ==>
      pairs[i].0 in p.totalPerName && pairs[i].1 == p.totalPerName[pairs[i].0]
    requires forall n :: n in p.totalPerName ==> exists i :: 0 <= i < |pairs| && pairs[i].0 == n
    ensures TotalsBlock(p, t)
  {
    var sorted := SortByDuration(pairs);
    forall i | 0 <= i < |sorted|
      ensures sorted[i].0 in p.totalPerName && sorted[i].1 == p.totalPerName[sorted[i].0]
    {
      assert sorted[i] in multiset(pairs);
    }
    t := seq(|sorted|, i requires 0 <= i < |sorted| => TotalEventOf(p, sorted[i].0, i + 1));
    TotalsOrderedFrom(p, sorted, t);
    TotalsCovered(p, pairs, sorted, t);
  }

  /** The block built from pairs sorted by decreasing duration is
      numbered by position and ordered by duration. */
  lemma TotalsOrderedFrom(p: Profiler, sorted: seq<(string, int)>, t: seq<TraceEvent>)
    requires Valid(p)
    requires NonIncreasing(sorted)
    requires |t| == |sorted|
    requires forall i :: 0 <= i < |sorted| ==>
      sorted[i].0 in p.totalPerName && sorted[i].1 == p.totalPerName[sorted[i].0]
      && t[i] == TotalEventOf(p, sorted[i].0, i + 1)
    ensures TotalsNumbered(p, t) && TotalsOrdered(t)
  {
    forall i, j | 0 <= i < j < |t|
      ensures EventDuration(t[i]) >= EventDuration(t[j])
    {
      assert EventDuration(t[i]) == sorted[i].1;
      assert EventDuration(t[j]) == sorted[j].1;
    }
  }

  /** Every name of the map is in the pairs, hence in any permutation of
      them, hence numbered in the block built from that permutation. */
  lemma TotalsCovered(p: Profiler, pairs: seq<(string, int)>, sorted: seq<(string, int)>, t: seq<TraceEvent>)
    requires Valid(p)
    requires forall n :: n in p.totalPerName ==> exists i :: 0 <= i < |pairs| && pairs[i].0 == n
    requires multiset(sorted) == multiset(pairs)
    requires |t| == |sorted|
    requires forall i :: 0 <= i < |sorted| ==>
      sorted[i].0 in p.totalPerName && t[i] == TotalEventOf(p, sorted[i].0, i + 1)
    ensures TotalsCover(p, t)
  {
    forall n | n in p.totalPerName
      ensures exists i :: 0 <= i < |t| && t[i] == TotalEventOf(p, n, i + 1)
    {
      var j :| 0 <= j < |pairs| && pairs[j].0 == n;
      assert pairs[j] in multiset(sorted);
      var k :| 0 <= k < |sorted| && sorted[k] == pairs[j];
      assert t[k] == TotalEventOf(p, n, k + 1);
    }
  }

  /** Write: every recorded section in order, then one total per name from
      the longest to the shortest with thread ids 1, 2, 3, ..., then the
      process-name record. */
  method Write(p: Profiler) returns (events: seq<TraceEvent>)
    requires p.stack == []
    requires Valid(p)
    ensures |events| == |p.entries| + |p.totalPerName.Keys| + 1
    ensures events[..|p.entries|] == SectionEvents(p)
    ensures TotalsBlock(p, events[|p.entries|..|events| - 1])
    ensures events[|events| - 1] == ProcessNameEvent
  {
    var pairs := ListTotals(p.totalPerName);
    var totals := TotalEvents(p, pairs);
    events := SectionEvents(p) + totals + [ProcessNameEvent];
    assert events[|p.entries|..|events| - 1] == totals;
  }

  // ---------------------------------------------------------------------
  // The process-wide instance, as explicit state
  // ---------------------------------------------------------------------

  /** The global instance pointer; `None` is the null pointer. */
  datatype Global = Global(instance: Option<Profiler>)

  /** TimeTraceProfilerEnabled. */
  predicate Enabled(g: Global) {
    g.instance.Some?
  }

  /** TimeTraceProfilerInitialize: only when no instance exists. */
  function Initialize(g: Global, now: int): (h: Global)
    requires !Enabled(g)
    ensures Enabled(h) && Valid(h.instance.value)
    ensures h.instance.value.stack == [] && h.instance.value.entries == []
    ensures h.instance.value.totalPerName == map[] && h.instance.value.countPerName == map[]
    ensures h.instance.value.startTime == now
  {
    Global(Some(NewProfiler(now)))
  }

  /** TimeTraceProfilerCleanup. */
  function Cleanup(g: Global): (h: Global)
    ensures !Enabled(h)
  {
    Global(None)
  }

  /** TimeTraceProfilerBegin: ignored when there is no instance. */
  function GlobalBegin(g: Global, name: string, detail: string, now: int): (h: Global)
    ensures !Enabled(g) ==> h == g
    ensures Enabled(g) ==> Enabled(h) && |h.instance.value.stack| == |g.instance.value.stack| + 1
    ensures Enabled(g) ==> h.instance.value.stack == g.instance.value.stack + [Entry(now, 0, name, detail)]
  {
    match g.instance
    case None => g
    case Some(p) => Global(Some(Begin(p, name, detail, now)))
  }

  /** TimeTraceProfilerEnd: ignored when there is no instance; otherwise
      the instance's stack must not be empty. */
  function GlobalEnd(g: Global, now: int): (h: Global)
    requires Enabled(g) ==> |g.instance.value.stack| > 0
    ensures !Enabled(g) ==> h == g
    ensures Enabled(g) ==> Enabled(h) && |h.instance.value.stack| == |g.instance.value.stack| - 1
    ensures Enabled(g) ==> h.instance.value.stack == g.instance.value.stack[..|g.instance.value.stack| - 1]
  {
    match g.instance
    case None => g
    case Some(p) => Global(Some(End(p, now)))
  }

  /** The TimeTraceScope constructor. */
  function ScopeEnter(g: Global, name: string, detail: string, now: int): (h: Global)
    ensures Enabled(h) == Enabled(g)
    ensures !Enabled(g) ==> h == g
    ensures Enabled(g) ==> |h.instance.value.stack| == |g.instance.value.stack| + 1
    ensures Enabled(g) ==> h.instance.value.stack == g.instance.value.stack + [Entry(now, 0, name, detail)]
  {
    if Enabled(g) then GlobalBegin(g, name, detail, now) else g
  }

  /** The TimeTraceScope destructor. */
  function ScopeExit(g: Global, now: int): (h: Global)
    requires Enabled(g) ==> |g.instance.value.stack| > 0
    ensures Enabled(h) == Enabled(g)
    ensures !Enabled(g) ==> h == g
    ensures Enabled(g) ==> h.instance.value.stack == g.instance.value.stack[..|g.instance.value.stack| - 1]
    ensures Enabled(g) ==> h.instance.value == End(g.instance.value, now)
  {
    if Enabled(g) then GlobalEnd(g, now) else g
  }

  /** A scope opened and closed while the profiler is enabled leaves the
      stack of open sections exactly as it found it, and its invariant
      intact. */
  lemma ScopeRestoresStack(g: Global, name: string, detail: string, t0: int, t1: int)
    requires Enabled(g) && Valid(g.instance.value)
    ensures var h := ScopeExit(ScopeEnter(g, name, detail, t0), t1);
      Enabled(h) && h.instance.value.stack == g.instance.value.stack && Valid(h.instance.value)
  {
  }
}
