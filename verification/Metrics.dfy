/** The metrics cache of the CloudWatch gateway: counted under a lock, taken and pushed in batches. */
module Metrics {

  const TWO_64 := 0x1_0000_0000_0000_0000
  const TWO_63 := 0x8000_0000_0000_0000
  const BATCH := 20

  type Int64 = x: int | -TWO_63 <= x < TWO_63

  /** Addition on int64 wraps around. */
  function Wrap(x: int): Int64 {
    (x + TWO_63) % TWO_64 - TWO_63
  }

  datatype Datum = Datum(name: string, value: Int64)

  function Amount(m: map<string, Int64>, name: string): Int64 {
    if name in m then m[name] else 0
  }

  /** The amount that a sequence of data carries under a name. */
  function Total(data: seq<Datum>, name: string): int {
    if data == [] then 0
    else Total(data[..|data| - 1], name) + if data[|data| - 1].name == name then data[|data| - 1].value else 0
  }

  function Flatten(batches: seq<seq<Datum>>): seq<Datum> {
    if batches == [] then [] else Flatten(batches[..|batches| - 1]) + batches[|batches| - 1]
  }

  /** Each entry of the cache is in the data once, with its value. */
  ghost predicate Lists(data: seq<Datum>, cache: map<string, Int64>) {
    && (forall i :: 0 <= i < |data| ==> data[i].name in cache && cache[data[i].name] == data[i].value)
    && (forall i, j :: 0 <= i < j < |data| ==> data[i].name != data[j].name)
    && (forall name :: name in cache ==> exists i :: 0 <= i < |data| && data[i].name == name)
  }

  class CloudwatchGateway {
    var metricsCache: map<string, Int64>
    /** The batches handed over to be pushed, oldest first. */
    var pushed: seq<seq<Datum>>

    method Metric(name: string, value: Int64)
      modifies this
      ensures metricsCache == old(metricsCache)[name := Wrap(Amount(old(metricsCache), name) + value)]
      ensures pushed == old(pushed)
    {
      metricsCache := metricsCache[name := Wrap(Amount(metricsCache, name) + value)];
    }

    method CloneMetricsCache() returns (clone: map<string, Int64>)
      modifies this
      ensures clone == old(metricsCache) && metricsCache == map[] && pushed == old(pushed)
    {
      clone := metricsCache;
      metricsCache := map[];
    }

    method PushMetricsData(metricsData: seq<Datum>)
      modifies this
      ensures pushed == old(pushed) + [metricsData] && metricsCache == old(metricsCache)
    {
      pushed := pushed + [metricsData];
    }

    /** Every cached name goes out in exactly one of the new batches, full ones first; an empty cache pushes nothing. */
    method PushMetrics() returns (ghost batches: seq<seq<Datum>>)
      modifies this
      ensures metricsCache == map[] && pushed == old(pushed) + batches
      ensures old(metricsCache) == map[] <==> batches == []
      ensures Lists(Flatten(batches), old(metricsCache))
      ensures forall i :: 0 <= i < |batches| ==>
        if i < |batches| - 1 then |batches[i]| == 20 else |batches[i]| < 20
    {
      batches := [];
      if metricsCache == map[] { return; }
      hide Lists, Flatten;
      var cache := CloneMetricsCache();
      var metricsData: seq<Datum> := [];
      var left := cache.Keys;
      ListsNothing(cache);
      while left != {}
        invariant left <= cache.Keys
        invariant metricsCache == map[] && pushed == old(pushed) + batches
        invariant Lists(Flatten(batches) + metricsData, cache - left)
        invariant forall i :: 0 <= i < |batches| ==> |batches[i]| == BATCH
        invariant |metricsData| < BATCH
        decreases left
      {
        var name :| name in left;
        ListsNext(Flatten(batches) + metricsData, cache, left, name);
        Reassociate(Flatten(batches), metricsData, [Datum(name, cache[name])]);
        metricsData := metricsData + [Datum(name, cache[name])];
        left := left - {name};
        if |metricsData| == BATCH {
          PushMetricsData(metricsData);
          FlattenNext(batches, metricsData);
          batches := batches + [metricsData];
          metricsData := [];
        }
      }
      PushMetricsData(metricsData);
      FlattenNext(batches, metricsData);
      assert cache - left == cache;
      batches := batches + [metricsData];
    }
  }

  lemma ListsNothing(cache: map<string, Int64>)
    ensures Flatten([]) + [] == [] && Lists([], cache - cache.Keys)
  {
  }

  lemma Reassociate(a: seq<Datum>, b: seq<Datum>, c: seq<Datum>)
    ensures a + b + c == a + (b + c)
  {
  }

  lemma ListsNext(data: seq<Datum>, cache: map<string, Int64>, left: set<string>, name: string)
    requires Lists(data, cache - left) && name in left && name in cache
    ensures Lists(data + [Datum(name, cache[name])], cache - (left - {name}))
  {
    var next, sent := data + [Datum(name, cache[name])], cache - (left - {name});
    forall n | n in sent ensures exists i :: 0 <= i < |next| && next[i].name == n {
      if n == name {
        assert next[|data|].name == n;
      } else {
        assert n in cache - left;
        var i :| 0 <= i < |data| && data[i].name == n;
        assert next[i].name == n;
      }
    }
  }

  lemma FlattenNext(batches: seq<seq<Datum>>, batch: seq<Datum>)
    ensures Flatten(batches + [batch]) == Flatten(batches) + batch
      && Flatten(batches) + batch + [] == Flatten(batches) + batch
  {
    assert (batches + [batch])[..|batches|] == batches;
  }

  // ----- many callers at once -----

  /** A push that has passed the unlocked length check, or holds a clone of which it still has to push the rest. */
  datatype Pusher = Checked | Holding(rest: map<string, Int64>) | Gone

  datatype World = World(cache: map<string, Int64>, pushers: seq<Pusher>, delivered: seq<Datum>, recorded: seq<Datum>)

  datatype Step =
    | Record(name: string, value: Int64)
    | CheckLength
    | CloneAndClear(k: nat)
    | PushBatch(k: nat, data: seq<Datum>, part: map<string, Int64>)
    | Finish(k: nat)

  function Recorded(w: World, name: string, value: Int64): World {
    w.(cache := w.cache[name := Wrap(Amount(w.cache, name) + value)], recorded := w.recorded + [Datum(name, value)])
  }

  ghost predicate StepTaken(w: World, w': World, s: Step) {
    match s
    case Record(name, value) => w' == Recorded(w, name, value)
    case CheckLength =>
      w' == if w.cache == map[] then w else w.(pushers := w.pushers + [Checked])
    case CloneAndClear(k) =>
      k < |w.pushers| && w.pushers[k].Checked?
      && w' == w.(cache := map[], pushers := w.pushers[k := Holding(w.cache)])
    case PushBatch(k, data, part) =>
      k < |w.pushers| && w.pushers[k].Holding? && |data| <= BATCH && Lists(data, part)
      && part.Keys <= w.pushers[k].rest.Keys && (forall name :: name in part ==> w.pushers[k].rest[name] == part[name])
      && w' == w.(pushers := w.pushers[k := Holding(w.pushers[k].rest - part.Keys)], delivered := w.delivered + data)
    case Finish(k) =>
      k < |w.pushers| && w.pushers[k] == Holding(map[]) && w' == w.(pushers := w.pushers[k := Gone])
  }

  ghost function Held(p: Pusher, name: string): Int64 {
    if p.Holding? then Amount(p.rest, name) else 0
  }

  ghost function InFlight(pushers: seq<Pusher>, name: string): int {
    if pushers == [] then 0
    else InFlight(pushers[..|pushers| - 1], name) + Held(pushers[|pushers| - 1], name)
  }

  /** Everything that has been recorded under a name and is delivered, held or cached. */
  ghost function Accounted(w: World, name: string): int {
    Total(w.delivered, name) + InFlight(w.pushers, name) + Amount(w.cache, name)
  }

  lemma {:induction false} InFlightUpdate(pushers: seq<Pusher>, k: nat, p: Pusher, name: string)
    requires k < |pushers|
    ensures InFlight(pushers[k := p], name) == InFlight(pushers, name) - Held(pushers[k], name) + Held(p, name)
  {
    var n := |pushers| - 1;
    if k == n {
      assert pushers[k := p][..n] == pushers[..n];
    } else {
      assert pushers[k := p][..n] == pushers[..n][k := p];
      InFlightUpdate(pushers[..n], k, p, name);
    }
  }

  lemma {:induction false} TotalAppend(a: seq<Datum>, b: seq<Datum>, name: string)
    ensures Total(a + b, name) == Total(a, name) + Total(b, name)
  {
    if b == [] {
      assert a + b == a;
    } else {
      assert (a + b)[..|a + b| - 1] == a + b[..|b| - 1];
      TotalAppend(a, b[..|b| - 1], name);
    }
  }

  lemma ListsWithoutLast(data: seq<Datum>, cache: map<string, Int64>)
    requires Lists(data, cache) && data != []
    ensures Lists(data[..|data| - 1], cache - {data[|data| - 1].name})
  {
    var init, last := data[..|data| - 1], data[|data| - 1];
    forall n | n in cache && n != last.name ensures exists i :: 0 <= i < |init| && init[i].name == n {
      var i :| 0 <= i < |data| && data[i].name == n;
      assert init[i].name == n;
    }
  }

  lemma RecordedTotal(w: World, n: string, value: Int64, name: string)
    ensures Total(Recorded(w, n, value).recorded, name) == Total(w.recorded, name) + if n == name then value else 0
  {
    assert (w.recorded + [Datum(n, value)])[..|w.recorded|] == w.recorded;
  }

  /** Data that list a cache carry its amount under each name. */
  lemma {:induction false} TotalOfListed(data: seq<Datum>, cache: map<string, Int64>, name: string)
    requires Lists(data, cache)
    ensures Total(data, name) == Amount(cache, name)
  {
    if data != [] {
      var last := data[|data| - 1];
      ListsWithoutLast(data, cache);
      TotalOfListed(data[..|data| - 1], cache - {last.name}, name);
    } else {
      assert name !in cache;
    }
  }

  /** A push, check, clone or finish keeps what is accounted for; a recording adds its amount, up to wrap-around. */
  lemma StepAccounts(w: World, w': World, s: Step, name: string)
    requires StepTaken(w, w', s)
    ensures !s.Record? ==> Accounted(w', name) == Accounted(w, name) && w'.recorded == w.recorded
    ensures s.Record? ==> Total(w'.recorded, name) == Total(w.recorded, name) + (if s.name == name then s.value else 0)
    ensures s.Record? && s.name != name ==> Accounted(w', name) == Accounted(w, name)
    ensures s.Record? && s.name == name ==>
      Accounted(w', name) == Accounted(w, name) - Amount(w.cache, name) + Wrap(Amount(w.cache, name) + s.value)
  {
    match s
    case Record(n, value) => RecordedTotal(w, n, value, name);
    case CheckLength => assert w'.pushers != w.pushers ==> w'.pushers[..|w.pushers|] == w.pushers;
    case CloneAndClear(k) => InFlightUpdate(w.pushers, k, Holding(w.cache), name);
    case PushBatch(k, data, part) =>
      InFlightUpdate(w.pushers, k, Holding(w.pushers[k].rest - part.Keys), name);
      TotalAppend(w.delivered, data, name);
      TotalOfListed(data, part, name);
    case Finish(k) => InFlightUpdate(w.pushers, k, Gone, name);
  }

  ghost predicate Run(run: seq<World>, steps: seq<Step>) {
    && |run| == |steps| + 1
    && run[0] == World(map[], [], [], [])
    && forall i :: 0 <= i < |steps| ==> StepTaken(run[i], run[i + 1], steps[i])
  }

  // ----- what the caller recorded between two clones -----

  /** The amount recorded under a name in the first i steps since the last clone among them. */
  function Since(steps: seq<Step>, name: string, i: nat): int
    requires i <= |steps|
  {
    if i == 0 || steps[i - 1].CloneAndClear? then 0
    else Since(steps, name, i - 1) + if steps[i - 1].Record? && steps[i - 1].name == name then steps[i - 1].value else 0
  }

  /** How often 2^64 has to be taken off a sum to bring it into the range of int64; negative when it is added. */
  function Carry(x: int): int {
    (x + TWO_63) / TWO_64
  }

  /** The carries of the sums recorded up to each clone. */
  function Carried(steps: seq<Step>, name: string, i: nat): int
    requires i <= |steps|
  {
    if i == 0 then 0
    else Carried(steps, name, i - 1) + if steps[i - 1].CloneAndClear? then Carry(Since(steps, name, i - 1)) else 0
  }

  lemma WrapCarries(x: int)
    ensures Wrap(x) == x - TWO_64 * Carry(x)
    ensures Carry(x) == 0 <==> -TWO_63 <= x < TWO_63
  {
  }

  /** int64: the range, and the two ends meet. */
  lemma WrapEnds(x: int)
    ensures Wrap(x) == x <==> -9223372036854775808 <= x <= 9223372036854775807
    ensures Wrap(9223372036854775808) == -9223372036854775808
    ensures exists k :: Wrap(x) == x + 18446744073709551616 * k
  {
    WrapCarries(x);
    assert Wrap(x) == x + 18446744073709551616 * (-Carry(x));
  }

  lemma WrapTwice(x: int, y: int)
    ensures Wrap(Wrap(x) + y) == Wrap(x + y)
  {
    WrapCarries(x);
    var z := x + y + TWO_63;
    SameRemainder(z, Carry(x));
  }

  lemma SameRemainder(z: int, k: int)
    ensures (z - TWO_64 * k) % TWO_64 == z % TWO_64
  {
    var r, q := z % TWO_64, z / TWO_64;
    assert z - TWO_64 * k == TWO_64 * (q - k) + r;
  }

  /** However the callers interleave, the cached amount is the wrapped sum of what was recorded since the last clone. */
  lemma {:induction false} CachedIsWrapped(run: seq<World>, steps: seq<Step>, name: string, i: nat)
    requires Run(run, steps) && i < |run|
    ensures Amount(run[i].cache, name) == Wrap(Since(steps, name, i))
  {
    hide Wrap, Lists;
    if i == 0 {
      WrapCarries(0);
    } else {
      CachedIsWrapped(run, steps, name, i - 1);
      assert StepTaken(run[i - 1], run[i - 1 + 1], steps[i - 1]);
      var s := steps[i - 1];
      if s.Record? && s.name == name { WrapTwice(Since(steps, name, i - 1), s.value); }
      if s.CloneAndClear? { WrapCarries(0); }
    }
  }

  lemma NothingAccounted(w: World, name: string)
    requires w == World(map[], [], [], [])
    ensures Accounted(w, name) == Total(w.recorded, name) == 0
  {
  }

  /** Conservation over whole runs, under any interleaving: what was recorded under a name is delivered, in flight
      or cached, except for 2^64 at each carry of a sum recorded between two clones. */
  lemma {:induction false} Conservation(run: seq<World>, steps: seq<Step>, name: string, i: nat)
    requires Run(run, steps) && i < |run|
    ensures Total(run[i].recorded, name)
      == Accounted(run[i], name) + TWO_64 * (Carried(steps, name, i) + Carry(Since(steps, name, i)))
  {
    hide Accounted, StepTaken, Total, Carry, Wrap;
    if i == 0 {
      NothingAccounted(run[0], name);
      WrapCarries(0);
    } else {
      Conservation(run, steps, name, i - 1);
      CachedIsWrapped(run, steps, name, i - 1);
      assert StepTaken(run[i - 1], run[i - 1 + 1], steps[i - 1]);
      StepAccounts(run[i - 1], run[i], steps[i - 1], name);
      var s, sum := steps[i - 1], Since(steps, name, i - 1);
      WrapCarries(0);
      if s.Record? && s.name == name {
        WrapTwice(sum, s.value);
        WrapCarries(sum);
        WrapCarries(sum + s.value);
      }
    }
  }

  /** Nothing is lost or counted twice exactly when the carries of the sums recorded between two clones cancel. */
  lemma ConservedIff(run: seq<World>, steps: seq<Step>, name: string, i: nat)
    requires Run(run, steps) && i < |run|
    ensures Accounted(run[i], name) == Total(run[i].recorded, name)
      <==> Carried(steps, name, i) + Carry(Since(steps, name, i)) == 0
  {
    hide Run, Accounted, Total, Carry, Carried, Since;
    Conservation(run, steps, name, i);
  }

  predicate InRange(x: int) {
    -TWO_63 <= x < TWO_63
  }

  /** In particular when each of these sums is an int64, whatever the sums on the way to it are. */
  lemma {:induction false} SumsInRangeCarryNothing(steps: seq<Step>, name: string, i: nat)
    requires i <= |steps| && InRange(Since(steps, name, i))
    requires forall j :: 0 <= j < i && steps[j].CloneAndClear? ==> InRange(Since(steps, name, j))
    ensures Carried(steps, name, i) + Carry(Since(steps, name, i)) == 0
  {
    hide Carry;
    WrapCarries(Since(steps, name, i));
    NothingCarried(steps, name, i);
  }

  lemma {:induction false} NothingCarried(steps: seq<Step>, name: string, i: nat)
    requires i <= |steps|
    requires forall j :: 0 <= j < i && steps[j].CloneAndClear? ==> InRange(Since(steps, name, j))
    ensures Carried(steps, name, i) == 0
  {
    hide Carry, Since;
    if i > 0 {
      NothingCarried(steps, name, i - 1);
      WrapCarries(Since(steps, name, i - 1));
    }
  }

  lemma NothingSent(name: string)
    ensures Total([], name) == 0 && InFlight([], name) == 0
  {
  }

  lemma RecordAccounted(w: World, name: string, value: Int64)
    requires w.pushers == [] && w.delivered == []
    ensures var w' := Recorded(w, name, value);
      && StepTaken(w, w', Record(name, value)) && w'.pushers == [] && w'.delivered == []
      && Total(w'.recorded, name) == Total(w.recorded, name) + value
      && Accounted(w', name) == Amount(w'.cache, name) == Wrap(Amount(w.cache, name) + value)
  {
    hide Wrap, Lists, Total, InFlight;
    RecordedTotal(w, name, value, name);
    NothingSent(name);
  }

  lemma OverTheTop()
    ensures Carry(TWO_63) == 1
  {
  }

  /** Two recordings can be too many: the cached sum turns negative. */
  lemma TwoRecordingsWrap() returns (run: seq<World>, steps: seq<Step>)
    ensures Run(run, steps) && |run| == 3
    ensures Total(run[2].recorded, "m") == TWO_63 && Accounted(run[2], "m") == -TWO_63
    ensures Since(steps, "m", 2) == TWO_63 && Carry(TWO_63) == 1
  {
    hide Lists, StepTaken, Wrap, Carry, Total;
    var v: Int64 := TWO_63 - 1;
    var w0 := World(map[], [], [], []);
    var w1 := Recorded(w0, "m", v);
    run, steps := [w0, w1, Recorded(w1, "m", 1)], [Record("m", v), Record("m", 1)];
    assert Since(steps, "m", 0) == 0 && Since(steps, "m", 1) == v;
    NothingAccounted(w0, "m");
    RecordAccounted(w0, "m", v);
    RecordAccounted(w1, "m", 1);
    WrapCarries(v);
    WrapCarries(TWO_63);
    OverTheTop();
  }
}
