/** The sample painter's data side (ui/src/samplePainter.ts): one sliding
    window of samples per chart range, the validation of an incoming sample
    against the chart layout, the rebuild of an element's charts when its
    properties change, and the element registry. Chart values are opaque;
    charts and DOM elements are identities. */
module SamplePainter {
  import opened Wrappers
  import Utilities
  import Attachments

  /** The samples one chart range shows: their times in deciseconds, their
      labels, and per chart and per curve the values, all parallel. */
  datatype Collection<V> = Collection(
    range: int,
    timestamps: seq<int>,
    labels: seq<string>,
    extendedLabels: seq<string>,
    values: seq<seq<seq<V>>>)

  /** The collection holds one value list per curve of each chart, and all
      its lists have one entry per timestamp. */
  predicate Shaped<V>(c: Collection<V>, curveCounts: seq<nat>)
  {
    && |c.labels| == |c.timestamps| && |c.extendedLabels| == |c.timestamps|
    && |c.values| == |curveCounts|
    && (forall i :: 0 <= i < |c.values| ==> |c.values[i]| == curveCounts[i])
    && (forall i, j :: 0 <= i < |c.values| && 0 <= j < |c.values[i]| ==> |c.values[i][j]| == |c.timestamps|)
  }

  /** A new collection: empty lists, one per curve of each chart. */
  function NewCollection<V>(range: int, curveCounts: seq<nat>): (c: Collection<V>)
    ensures Shaped(c, curveCounts) && c.timestamps == [] && c.range == range
  {
    Collection(range, [], [], [],
      seq(|curveCounts|, i requires 0 <= i < |curveCounts| => seq(curveCounts[i], _ => [])))
  }

  /** A sample has one value per curve of each chart. */
  predicate SampleShaped<V>(sample: seq<seq<V>>, curveCounts: seq<nat>)
  {
    |sample| == |curveCounts| && forall i :: 0 <= i < |sample| ==> |sample[i]| == curveCounts[i]
  }

  /** How many samples at the front are at least `range` deciseconds older
      than `t`: the loop in `push` shifts them off and stops at the first
      younger one. */
  function Stale(timestamps: seq<int>, t: int, range: int): (n: nat)
    ensures n <= |timestamps|
    ensures forall i :: 0 <= i < n ==> t - timestamps[i] >= range
    ensures n < |timestamps| ==> t - timestamps[n] < range
    decreases |timestamps|
  {
    if |timestamps| > 0 && t - timestamps[0] >= range then 1 + Stale(timestamps[1..], t, range) else 0
  }

  /** `Collection.push`: the time is converted to deciseconds (`bigint`
      division, truncating), the stale samples are shifted off every list,
      then the sample is appended to every list. */
  function Push<V>(c: Collection<V>, timestamp: int, caption: string, extendedLabel: string, sample: seq<seq<V>>): (r: Collection<V>)
    requires |sample| == |c.values| && forall i :: 0 <= i < |c.values| ==> |sample[i]| == |c.values[i]|
    requires |c.labels| == |c.timestamps| && |c.extendedLabels| == |c.timestamps|
    requires forall i, j :: 0 <= i < |c.values| && 0 <= j < |c.values[i]| ==> |c.values[i][j]| == |c.timestamps|
    ensures r.range == c.range
    ensures var t := Utilities.TDiv(timestamp, 100000);
      var n := Stale(c.timestamps, t, c.range);
      && r.timestamps == c.timestamps[n..] + [t]
      && r.labels == c.labels[n..] + [caption]
      && r.extendedLabels == c.extendedLabels[n..] + [extendedLabel]
      && |r.values| == |c.values|
      && (forall i :: 0 <= i < |c.values| ==> |r.values[i]| == |c.values[i]|)
      && forall i, j :: 0 <= i < |c.values| && 0 <= j < |c.values[i]| ==> r.values[i][j] == c.values[i][j][n..] + [sample[i][j]]
  {
    var t := Utilities.TDiv(timestamp, 100000);
    var n := Stale(c.timestamps, t, c.range);
    var values := seq(|c.values|, i requires 0 <= i < |c.values| =>
      seq(|c.values[i]|, j requires 0 <= j < |c.values[i]| => c.values[i][j][n..] + [sample[i][j]]));
    Collection(c.range, c.timestamps[n..] + [t], c.labels[n..] + [caption], c.extendedLabels[n..] + [extendedLabel], values)
  }

  /** Pushing keeps every list parallel. */
  lemma PushKeepsShape<V>(c: Collection<V>, timestamp: int, caption: string, extendedLabel: string, sample: seq<seq<V>>, curveCounts: seq<nat>)
    requires Shaped(c, curveCounts) && SampleShaped(sample, curveCounts)
    ensures Shaped(Push(c, timestamp, caption, extendedLabel, sample), curveCounts)
  {
    var r := Push(c, timestamp, caption, extendedLabel, sample);
    forall i, j | 0 <= i < |r.values| && 0 <= j < |r.values[i]|
      ensures |r.values[i][j]| == |r.timestamps|
    {
      assert r.values[i][j] == c.values[i][j][Stale(c.timestamps, Utilities.TDiv(timestamp, 100000), c.range)..] + [sample[i][j]];
    }
  }

  predicate Increasing(s: seq<int>)
  {
    forall i, j :: 0 <= i < j < |s| ==> s[i] <= s[j]
  }

  /** With samples arriving in time order and a positive range, the window
      stays in time order, ends with the new sample, and holds exactly the
      samples less than `range` deciseconds older than it. */
  lemma PushKeepsWindow<V>(c: Collection<V>, timestamp: int, caption: string, extendedLabel: string, sample: seq<seq<V>>, curveCounts: seq<nat>)
    requires Shaped(c, curveCounts) && SampleShaped(sample, curveCounts)
    requires c.range > 0 && Increasing(c.timestamps)
    requires |c.timestamps| > 0 ==> c.timestamps[|c.timestamps| - 1] <= Utilities.TDiv(timestamp, 100000)
    ensures var r := Push(c, timestamp, caption, extendedLabel, sample);
      var t := Utilities.TDiv(timestamp, 100000);
      && Increasing(r.timestamps) && r.timestamps[|r.timestamps| - 1] == t
      && (forall i :: 0 <= i < |r.timestamps| ==> t - r.timestamps[i] < c.range)
      && (forall i :: 0 <= i < |c.timestamps| && t - c.timestamps[i] < c.range ==> c.timestamps[i] in r.timestamps)
  {
    Window(c.timestamps, Utilities.TDiv(timestamp, 100000), c.range);
  }

  /** The sliding window on the times alone. */
  lemma Window(timestamps: seq<int>, t: int, range: int)
    requires range > 0 && Increasing(timestamps)
    requires |timestamps| > 0 ==> timestamps[|timestamps| - 1] <= t
    ensures var kept := timestamps[Stale(timestamps, t, range)..] + [t];
      && Increasing(kept) && kept[|kept| - 1] == t
      && (forall i :: 0 <= i < |kept| ==> t - kept[i] < range)
      && (forall i :: 0 <= i < |timestamps| && t - timestamps[i] < range ==> timestamps[i] in kept)
  {
    var n := Stale(timestamps, t, range);
    SuffixIncreasing(timestamps, n);
    SuffixYoung(timestamps, t, range);
    AppendLatest(timestamps[n..], t, range);
    SuffixKeepsYoung(timestamps, t, range);
  }

  lemma SuffixIncreasing(s: seq<int>, n: nat)
    requires n <= |s| && Increasing(s)
    ensures Increasing(s[n..])
  {
    var tail := s[n..];
    forall i, j | 0 <= i < j < |tail|
      ensures tail[i] <= tail[j]
    {
      assert tail[i] == s[n + i] && tail[j] == s[n + j];
    }
  }

  /** What stays after the stale times are dropped is young, and its last
      time is the last time of all. */
  lemma SuffixYoung(timestamps: seq<int>, t: int, range: int)
    requires Increasing(timestamps)
    requires |timestamps| > 0 ==> timestamps[|timestamps| - 1] <= t
    ensures var tail := timestamps[Stale(timestamps, t, range)..];
      && (forall i :: 0 <= i < |tail| ==> t - tail[i] < range)
      && (|tail| > 0 ==> tail[|tail| - 1] <= t)
  {
    var n := Stale(timestamps, t, range);
    var tail := timestamps[n..];
    forall i | 0 <= i < |tail|
      ensures t - tail[i] < range
    {
      assert tail[i] == timestamps[n + i] && timestamps[n] <= timestamps[n + i];
    }
    if |tail| > 0 {
      assert tail[|tail| - 1] == timestamps[|timestamps| - 1];
    }
  }

  /** No young time is dropped. */
  lemma SuffixKeepsYoung(timestamps: seq<int>, t: int, range: int)
    ensures var kept := timestamps[Stale(timestamps, t, range)..] + [t];
      forall i :: 0 <= i < |timestamps| && t - timestamps[i] < range ==> timestamps[i] in kept
  {
    var n := Stale(timestamps, t, range);
    var kept := timestamps[n..] + [t];
    forall i | 0 <= i < |timestamps| && t - timestamps[i] < range
      ensures timestamps[i] in kept
    {
      assert kept[i - n] == timestamps[i];
    }
  }

  /** Appending the latest time to a window of younger times. */
  lemma AppendLatest(tail: seq<int>, t: int, range: int)
    requires range > 0 && Increasing(tail) && (|tail| > 0 ==> tail[|tail| - 1] <= t)
    requires forall i :: 0 <= i < |tail| ==> t - tail[i] < range
    ensures var kept := tail + [t];
      Increasing(kept) && kept[|kept| - 1] == t && forall i :: 0 <= i < |kept| ==> t - kept[i] < range
  {
    var kept := tail + [t];
    forall i, j | 0 <= i < j < |kept|
      ensures kept[i] <= kept[j]
    {
      if j == |tail| && i < |tail| {
        assert tail[i] <= tail[|tail| - 1];
      }
    }
  }

  /** The charts configured for the stream: each one's name and its number
      of curves. */
  datatype ChartProperties = ChartProperties(name: string, curveCount: nat)

  function CurveCounts(charts: seq<ChartProperties>): (r: seq<nat>)
    ensures |r| == |charts| && forall i :: 0 <= i < |charts| ==> r[i] == charts[i].curveCount
  {
    seq(|charts|, i requires 0 <= i < |charts| => charts[i].curveCount)
  }

  /** The painter: the chart layout, one collection per chart range except
      range 0 (which has none), whether the charts must be redrawn, and the
      attached elements with their contexts. */
  datatype Painter<V, E> = Painter(
    charts: seq<ChartProperties>,
    collections: seq<Option<Collection<V>>>,
    update: bool,
    registry: Attachments.Registry<E>,
    contexts: map<nat, ElementContext>)

  /** Every collection matches the chart layout. */
  predicate CollectionsShaped<V, E>(p: Painter<V, E>)
  {
    forall k :: 0 <= k < |p.collections| && p.collections[k].Some? ==> Shaped(p.collections[k].value, CurveCounts(p.charts))
  }

  /** The painter's constructor: a missing collection for range 0, then a
      new collection per further range; `ranges[k]` stands for range `k` in
      deciseconds (the chart range table is not part of this model). */
  function NewPainter<V, E>(charts: seq<ChartProperties>, ranges: seq<int>): (p: Painter<V, E>)
    requires |ranges| >= 1
    ensures |p.collections| == |ranges| && p.collections[0].None?
    ensures forall k :: 1 <= k < |ranges| ==> p.collections[k] == Some(NewCollection(ranges[k], CurveCounts(charts)))
    ensures CollectionsShaped(p) && p.update && p.registry == Attachments.Empty() && p.contexts == map[]
  {
    var collections := seq(|ranges|, k requires 0 <= k < |ranges| =>
      if k == 0 then None else Some(NewCollection(ranges[k], CurveCounts(charts))));
    Painter(charts, collections, true, Attachments.Empty(), map[])
  }

  datatype SampleError = ChartCountMismatch(expected: nat, got: nat) | CurveCountMismatch(chart: nat, expected: nat, got: nat)

  /** The first chart whose curve count the sample does not match. */
  function FirstMismatch<V>(charts: seq<ChartProperties>, sample: seq<seq<V>>, from: nat): (r: Option<nat>)
    requires |sample| == |charts| && from <= |charts|
    ensures r.Some? ==> from <= r.value < |charts| && |sample[r.value]| != charts[r.value].curveCount
    ensures r.Some? ==> forall i :: from <= i < r.value ==> |sample[i]| == charts[i].curveCount
    ensures r.None? ==> forall i :: from <= i < |charts| ==> |sample[i]| == charts[i].curveCount
    decreases |charts| - from
  {
    if from == |charts| then None
    else if |sample[from]| != charts[from].curveCount then Some(from)
    else FirstMismatch(charts, sample, from + 1)
  }

  /** `SamplePainter.push`: a sample with the wrong number of charts, or a
      chart with the wrong number of curves (the first such chart is
      reported), throws before anything changes; otherwise every collection
      receives the sample and the charts are marked for an update. */
  function PushSample<V, E>(p: Painter<V, E>, timestamp: int, caption: string, extendedLabel: string, sample: seq<seq<V>>): (r: Result<Painter<V, E>, SampleError>)
    requires CollectionsShaped(p)
    ensures r.Err? <==> !SampleShaped(sample, CurveCounts(p.charts))
    ensures r.Err? && |sample| != |p.charts| ==> r.error == ChartCountMismatch(|p.charts|, |sample|)
    ensures r.Ok? ==> r.value.update && r.value.charts == p.charts && r.value.registry == p.registry && r.value.contexts == p.contexts
    ensures r.Ok? ==> |r.value.collections| == |p.collections|
    ensures r.Ok? ==> forall k :: 0 <= k < |p.collections| ==>
      r.value.collections[k] == if p.collections[k].None? then None
        else Some(Push(p.collections[k].value, timestamp, caption, extendedLabel, sample))
  {
    if |sample| != |p.charts| then Err(ChartCountMismatch(|p.charts|, |sample|))
    else
      match FirstMismatch(p.charts, sample, 0)
      case Some(i) => Err(CurveCountMismatch(i, p.charts[i].curveCount, |sample[i]|))
      case None =>
        var collections := seq(|p.collections|, k requires 0 <= k < |p.collections| =>
          match p.collections[k]
          case None => None
          case Some(c) => Some(Push(c, timestamp, caption, extendedLabel, sample)));
        Ok(p.(collections := collections, update := true))
  }

  /** Accepted samples keep every collection in the chart layout. */
  lemma PushSampleKeepsShape<V, E>(p: Painter<V, E>, timestamp: int, caption: string, extendedLabel: string, sample: seq<seq<V>>)
    requires CollectionsShaped(p)
    ensures var r := PushSample(p, timestamp, caption, extendedLabel, sample);
      r.Ok? ==> CollectionsShaped(r.value)
  {
    var r := PushSample(p, timestamp, caption, extendedLabel, sample);
    if r.Ok? {
      forall k | 0 <= k < |p.collections| && p.collections[k].Some?
        ensures Shaped(r.value.collections[k].value, CurveCounts(p.charts))
      {
        PushKeepsShape(p.collections[k].value, timestamp, caption, extendedLabel, sample, CurveCounts(p.charts));
      }
    }
  }

  /** A chart an element shows: the chart's index in the layout, its name,
      and the range whose collection it draws. */
  datatype ChartView = ChartView(chart: nat, name: string, rangeIndex: int)

  /** An element's context: its display properties (the hash that changes
      whenever they do, and per chart a name and a range index, 0 meaning
      hidden), the charts it shows, and the hash they were built for. */
  datatype ElementContext = ElementContext(hash: int, namesAndRanges: seq<(string, int)>, views: seq<ChartView>, currentHash: int)

  /** Why `updateHTML` throws: the layout names disagree with the charts',
      or a shown chart's range index addresses no collection (the chart is
      then built from `undefined`). */
  datatype UpdateError = LayoutMismatch | MissingCollection

  /** The charts of the entries from `from` on whose range index is positive,
      in order. */
  function Views(charts: seq<ChartProperties>, namesAndRanges: seq<(string, int)>, from: nat): (r: seq<ChartView>)
    requires |namesAndRanges| == |charts| && from <= |charts|
    ensures forall v :: v in r ==> from <= v.chart < |charts| && v.name == charts[v.chart].name && v.rangeIndex == namesAndRanges[v.chart].1 > 0
    ensures forall i :: from <= i < |charts| && namesAndRanges[i].1 > 0 ==> ChartView(i, charts[i].name, namesAndRanges[i].1) in r
    ensures forall j, k :: 0 <= j < k < |r| ==> r[j].chart < r[k].chart
    decreases |charts| - from
  {
    if from == |charts| then []
    else
      var rest := Views(charts, namesAndRanges, from + 1);
      if namesAndRanges[from].1 > 0 then [ChartView(from, charts[from].name, namesAndRanges[from].1)] + rest else rest
  }

  predicate NamesMatch(charts: seq<ChartProperties>, namesAndRanges: seq<(string, int)>)
  {
    |namesAndRanges| == |charts| && forall i :: 0 <= i < |charts| ==> charts[i].name == namesAndRanges[i].0
  }

  /** Every shown chart's range index addresses an existing collection. */
  predicate RangesResolve<V>(namesAndRanges: seq<(string, int)>, collections: seq<Option<Collection<V>>>)
  {
    forall i :: 0 <= i < |namesAndRanges| && namesAndRanges[i].1 > 0 ==>
      namesAndRanges[i].1 < |collections| && collections[namesAndRanges[i].1].Some?
  }

  /** `updateHTML`: nothing to do while the hash is the one the charts were
      built for; a layout whose names disagree with the charts' throws
      before anything changes; a shown chart whose collection is missing
      throws while the charts are rebuilt; otherwise the charts are rebuilt,
      one per entry with a positive range index, and the hash recorded. */
  function UpdateHtml<V>(c: ElementContext, charts: seq<ChartProperties>, collections: seq<Option<Collection<V>>>): (r: Result<ElementContext, UpdateError>)
    ensures c.hash == c.currentHash ==> r == Ok(c)
    ensures r.Err? <==> c.hash != c.currentHash && !(NamesMatch(charts, c.namesAndRanges) && RangesResolve(c.namesAndRanges, collections))
    ensures r.Err? && !NamesMatch(charts, c.namesAndRanges) ==> r.error == LayoutMismatch
    ensures r.Ok? ==> r.value.currentHash == c.hash && r.value.hash == c.hash && r.value.namesAndRanges == c.namesAndRanges
    ensures r.Ok? && c.hash != c.currentHash ==> r.value.views == Views(charts, c.namesAndRanges, 0)
  {
    if c.hash == c.currentHash then Ok(c)
    else if !NamesMatch(charts, c.namesAndRanges) then Err(LayoutMismatch)
    else if !RangesResolve(c.namesAndRanges, collections) then Err(MissingCollection)
    else Ok(c.(views := Views(charts, c.namesAndRanges, 0), currentHash := c.hash))
  }

  /** Once built, the charts stay until the properties change: a second
      update does nothing. */
  lemma UpdateHtmlOnce<V>(c: ElementContext, charts: seq<ChartProperties>, collections: seq<Option<Collection<V>>>)
    requires UpdateHtml(c, charts, collections).Ok?
    ensures var after := UpdateHtml(c, charts, collections).value;
      UpdateHtml(after, charts, collections) == Ok(after)
  {
  }

  /** An element is shown exactly the charts whose range index is positive,
      each under its own name. */
  lemma UpdateHtmlShowsVisible<V>(c: ElementContext, charts: seq<ChartProperties>, collections: seq<Option<Collection<V>>>, i: nat)
    requires c.hash != c.currentHash && UpdateHtml(c, charts, collections).Ok? && i < |charts|
    ensures var views := UpdateHtml(c, charts, collections).value.views;
      (exists v :: v in views && v.chart == i) <==> c.namesAndRanges[i].1 > 0
  {
    var views := UpdateHtml(c, charts, collections).value.views;
    if c.namesAndRanges[i].1 > 0 {
      assert ChartView(i, charts[i].name, c.namesAndRanges[i].1) in views;
    }
  }

  /** Why `attach` throws: the element is attached already, or updating
      its new context found a layout mismatch. */
  datatype AttachError = AlreadyAttached | UpdateFailed(error: UpdateError)

  /** `attach`: an element already attached throws. Otherwise the id
      counter moves on and the new context (built for hash 0) is updated;
      when that throws, the element is not attached but the id is spent.
      On success the element is registered with its context. */
  function Attach<V, E(==)>(p: Painter<V, E>, element: E, hash: int, namesAndRanges: seq<(string, int)>): (r: (Painter<V, E>, Result<nat, AttachError>))
    ensures Attachments.IsAttached(p.registry, element) ==> r == (p, Err(AlreadyAttached))
    ensures !Attachments.IsAttached(p.registry, element) ==> r.0.registry.nextId == p.registry.nextId + 1
    ensures r.1.Ok? <==> !Attachments.IsAttached(p.registry, element)
                         && (hash == 0 || (NamesMatch(p.charts, namesAndRanges) && RangesResolve(namesAndRanges, p.collections)))
    ensures r.1.Ok? ==> r.1.value == p.registry.nextId && r.0.registry.entries == p.registry.entries + [(element, r.1.value)]
    ensures r.1.Ok? ==> r.1.value in r.0.contexts && r.0.contexts[r.1.value].currentHash == hash
    ensures r.1.Err? ==> r.0.registry.entries == p.registry.entries && r.0.contexts == p.contexts
    ensures r.0.collections == p.collections && r.0.charts == p.charts && r.0.update == p.update
  {
    match Attachments.Attach(p.registry, element)
    case Err(_) => (p, Err(AlreadyAttached))
    case Ok((registry, id)) =>
      var context := ElementContext(hash, namesAndRanges, [], 0);
      match UpdateHtml(context, p.charts, p.collections)
      case Err(e) => (p.(registry := p.registry.(nextId := p.registry.nextId + 1)), Err(UpdateFailed(e)))
      case Ok(updated) => (p.(registry := registry, contexts := p.contexts[id := updated]), Ok(id))
  }

  /** Every registered element has a context, and every context belongs to
      a registered id. */
  ghost predicate Registered<V, E>(p: Painter<V, E>)
  {
    && Attachments.Valid(p.registry)
    && (forall id :: id in p.contexts <==> Attachments.HasId(p.registry, id))
  }

  /** `attach` keeps the registry and the contexts in step, whether or not
      it throws. */
  lemma AttachKeepsRegistered<V, E>(p: Painter<V, E>, element: E, hash: int, namesAndRanges: seq<(string, int)>)
    requires Registered(p)
    ensures Registered(Attach(p, element, hash, namesAndRanges).0)
  {
    var (q, r) := Attach(p, element, hash, namesAndRanges);
    Attachments.AttachKeepsValid(p.registry, element);
    if r.Ok? {
      forall i: nat
        ensures i in q.contexts <==> Attachments.HasId(q.registry, i)
      {
        Attachments.AttachIds(p.registry, element, i);
      }
    }
  }

  /** `detach`: the element's entry is removed (its charts destroyed with
      it); an id that is not attached throws. */
  function Detach<V, E>(p: Painter<V, E>, id: nat): (r: Result<Painter<V, E>, Attachments.AttachError>)
    ensures r.Err? <==> !Attachments.HasId(p.registry, id)
    ensures r.Ok? ==> id !in r.value.contexts && r.value.registry == Attachments.Detach(p.registry, id).value
    ensures r.Ok? ==> forall i :: i in p.contexts && i != id ==> i in r.value.contexts && r.value.contexts[i] == p.contexts[i]
  {
    match Attachments.Detach(p.registry, id)
    case Err(e) => Err(e)
    case Ok(registry) => Ok(p.(registry := registry, contexts := p.contexts - {id}))
  }

  lemma DetachKeepsRegistered<V, E>(p: Painter<V, E>, id: nat)
    requires Registered(p)
    ensures var r := Detach(p, id); r.Ok? ==> Registered(r.value)
  {
    var r := Detach(p, id);
    if r.Ok? {
      Attachments.DetachKeepsValid(p.registry, id);
      Attachments.DetachKeepsOthers(p.registry, id);
      var k := Attachments.FirstWithId(p.registry.entries, id).value;
      Attachments.Splice(p.registry.entries, k);
      forall i | i in r.value.contexts
        ensures Attachments.HasId(r.value.registry, i)
      {
        var j :| 0 <= j < |p.registry.entries| && p.registry.entries[j].1 == i;
        assert p.registry.entries[j] in r.value.registry.entries;
      }
    }
  }
}
