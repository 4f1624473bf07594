/** The recording catalogue the server shares with its clients
    (src/client.rs, src/main.rs): recordings kept sorted by name, and the
    conversion life cycle Complete → Queued → Converting → Complete driven by
    the `Convert` and `CancelConvert` messages, the periodic directory
    rescan and the conversion task. */
module Catalogue {
  import opened Wrappers
  import opened Text
  import opened ServerProtocol

  function Names(rs: seq<Recording>): (r: seq<string>)
    ensures |r| == |rs|
    ensures forall i :: 0 <= i < |rs| ==> r[i] == rs[i].name
  {
    seq(|rs|, i requires 0 <= i < |rs| => rs[i].name)
  }

  /** The catalogue's shape: one entry per name, sorted by name. */
  predicate Ordered(rs: seq<Recording>)
  {
    StrictlySorted(Names(rs))
  }

  /** What `Convert` does to one recording: a requested, complete recording
      without a zip archive is queued with the same size; everything else is
      kept. */
  function Queue(r: Recording, requested: seq<string>): Recording
  {
    if r.name in requested && r.state.Complete? && !r.state.zip then r.(state := Queued(r.state.size, false)) else r
  }

  /** A name that every name before position `n` of a sorted list precedes,
      and that precedes the name at `n`, is not in the list. */
  lemma NotListed(x: string, names: seq<string>, n: nat)
    requires Sorted(names) && n <= |names|
    requires forall j :: 0 <= j < n ==> Less(names[j], x)
    requires n < |names| ==> Less(x, names[n])
    ensures x !in names
  {
    forall j | 0 <= j < |names|
      ensures names[j] != x
    {
      if j < n {
        LessIrreflexive(x);
      } else {
        LessIrreflexive(x);
        if names[n] != names[j] {
          LessTransitive(x, names[n], names[j]);
        }
      }
    }
  }

  /** If every name before `n` precedes `a`, and `a` precedes `b`, every
      name before `n` precedes `b`. */
  lemma AllBelow(names: seq<string>, n: nat, a: string, b: string)
    requires n <= |names| && Less(a, b)
    requires forall j :: 0 <= j < n ==> Less(names[j], a)
    ensures forall j :: 0 <= j < n ==> Less(names[j], b)
  {
    forall j | 0 <= j < n
      ensures Less(names[j], b)
    {
      LessTransitive(names[j], a, b);
    }
  }

  /** Moving on to the next name of a strictly sorted list keeps every
      name before `n` below it. */
  lemma Advance(names: seq<string>, n: nat, rs: seq<string>, k: nat)
    requires StrictlySorted(rs) && k + 1 < |rs| && n <= |names|
    requires forall j :: 0 <= j < n ==> Less(names[j], rs[k])
    ensures forall j :: 0 <= j < n ==> Less(names[j], rs[k + 1])
  {
    assert Less(rs[k], rs[k + 1]);
    AllBelow(names, n, rs[k], rs[k + 1]);
  }

  /** The same after a match: the matched name is below the next one too. */
  lemma AdvanceMatched(names: seq<string>, n: nat, rs: seq<string>, k: nat)
    requires StrictlySorted(rs) && k + 1 < |rs| && n < |names| && names[n] == rs[k]
    requires forall j :: 0 <= j < n ==> Less(names[j], rs[k])
    ensures forall j :: 0 <= j < n + 1 ==> Less(names[j], rs[k + 1])
  {
    Advance(names, n, rs, k);
  }

  /** Once every name is used up, no later entry of a strictly sorted list
      is among the names. */
  lemma RestUnlisted(names: seq<string>, rs: seq<string>, k: nat)
    requires Sorted(names) && StrictlySorted(rs) && k <= |rs|
    requires k < |rs| ==> forall j :: 0 <= j < |names| ==> Less(names[j], rs[k])
    ensures forall i :: k <= i < |rs| ==> rs[i] !in names
  {
    forall i | k <= i < |rs|
      ensures rs[i] !in names
    {
      if i > k {
        assert Less(rs[k], rs[i]);
        AllBelow(names, |names|, rs[k], rs[i]);
      }
      NotListed(rs[i], names, |names|);
    }
  }

  lemma SameElement(xs: seq<string>, ys: seq<string>, x: string)
    requires multiset(xs) == multiset(ys)
    ensures x in xs <==> x in ys
  {
    assert x in xs <==> x in multiset(xs);
    assert x in ys <==> x in multiset(ys);
  }

  /** `ClientMessage::Convert`: the requested names are sorted, then walked
      alongside the (sorted) catalogue. Exactly the requested recordings that
      are complete and not yet zipped become queued. */
  method Convert(recordings: seq<Recording>, requested: seq<string>) returns (r: seq<Recording>)
    requires Ordered(recordings)
    ensures |r| == |recordings|
    ensures forall i :: 0 <= i < |r| ==> r[i] == Queue(recordings[i], requested)
  {
    var names := Sort(requested);
    var rs := Names(recordings);
    r := recordings;
    var n := 0;
    var k := 0;
    while n < |names| && k < |recordings|
      invariant 0 <= n <= |names| && 0 <= k <= |recordings|
      invariant |r| == |recordings|
      invariant forall i :: 0 <= i < k ==> r[i] == Queue(recordings[i], requested)
      invariant forall i :: k <= i < |r| ==> r[i] == recordings[i]
      invariant k < |recordings| ==> forall j :: 0 <= j < n ==> Less(names[j], rs[k])
      decreases |names| - n + |recordings| - k
    {
      LessTotal(names[n], rs[k]);
      if Less(names[n], rs[k]) {
        n := n + 1;
      } else if names[n] == rs[k] {
        SameElement(names, requested, rs[k]);
        var state := recordings[k].state;
        if state.Complete? && !state.zip {
          r := r[k := recordings[k].(state := Queued(state.size, false))];
        }
        if k + 1 < |recordings| {
          AdvanceMatched(names, n, rs, k);
        }
        n := n + 1;
        k := k + 1;
      } else {
        NotListed(rs[k], names, n);
        SameElement(names, requested, rs[k]);
        if k + 1 < |recordings| {
          Advance(names, n, rs, k);
        }
        k := k + 1;
      }
    }
    if n == |names| {
      RestUnlisted(names, rs, k);
      forall i | k <= i < |recordings|
        ensures rs[i] !in requested
      {
        SameElement(names, requested, rs[i]);
      }
    }
  }

  /** `ClientMessage::CancelConvert`: every queued recording is complete
      again with the same size and zip flag; the catalogue is broadcast
      exactly when something changed. */
  function CancelConvert(rs: seq<Recording>): (r: (seq<Recording>, bool))
    ensures |r.0| == |rs|
    ensures forall i :: 0 <= i < |rs| ==> r.0[i].name == rs[i].name && !r.0[i].state.Queued?
    ensures forall i :: 0 <= i < |rs| && rs[i].state.Queued? ==>
      r.0[i].state == Complete(rs[i].state.size, rs[i].state.zip)
    ensures forall i :: 0 <= i < |rs| && !rs[i].state.Queued? ==> r.0[i] == rs[i]
    ensures r.1 <==> exists i :: 0 <= i < |rs| && rs[i].state.Queued?
    ensures r.1 <==> r.0 != rs
  {
    var out := seq(|rs|, i requires 0 <= i < |rs| =>
      if rs[i].state.Queued? then rs[i].(state := Complete(rs[i].state.size, rs[i].state.zip)) else rs[i]);
    var changed := exists i :: 0 <= i < |rs| && rs[i].state.Queued?;
    assert changed ==> out != rs by {
      if changed {
        var i :| 0 <= i < |rs| && rs[i].state.Queued?;
        assert out[i] != rs[i];
      }
    }
    (out, changed)
  }

  /** The state a catalogue lists for `name`, if any. */
  function StateOf(rs: seq<Recording>, name: string): (r: Option<RecordingState>)
    ensures r.Some? <==> name in Names(rs)
  {
    if |rs| == 0 then None
    else
      assert Names(rs) == [rs[0].name] + Names(rs[1..]);
      if rs[0].name == name then Some(rs[0].state) else StateOf(rs[1..], name)
  }

  /** In a catalogue with one entry per name, the state listed for an
      entry's name is that entry's state. */
  lemma {:induction false} StateOfEntry(rs: seq<Recording>, i: nat)
    requires Ordered(rs) && i < |rs|
    ensures StateOf(rs, rs[i].name) == Some(rs[i].state)
    decreases |rs|
  {
    if i == 0 {
    } else {
      StrictlySortedIndex(Names(rs), 0, i);
      assert Names(rs[1..]) == Names(rs)[1..];
      assert rs[1..][i - 1] == rs[i];
      StateOfEntry(rs[1..], i - 1);
    }
  }

  /** What the rescan does to a freshly read recording: if it is complete and
      the current catalogue has it queued or converting, that status is kept
      with the scanned size and zip flag. */
  function KeepStatus(r: Recording, previous: Option<RecordingState>): Recording
  {
    match r.state
    case Complete(size, zip) =>
      (match previous
       case Some(Queued(_, _)) => r.(state := Queued(size, zip))
       case Some(Converting(_, _)) => r.(state := Converting(size, zip))
       case _ => r)
    case _ => r
  }

  /** The merge of the periodic rescan (both lists sorted by name): each
      scanned recording keeps its queued or converting status from the current
      catalogue, found by walking both lists side by side. */
  method Merge(scanned: seq<Recording>, current: seq<Recording>) returns (r: seq<Recording>)
    requires Ordered(scanned) && Ordered(current)
    ensures |r| == |scanned|
    ensures forall i :: 0 <= i < |r| ==> r[i] == KeepStatus(scanned[i], StateOf(current, scanned[i].name))
  {
    var fs := Names(scanned);
    var cs := Names(current);
    r := scanned;
    var n := 0;
    var k := 0;
    while n < |scanned| && k < |current|
      invariant 0 <= n <= |scanned| && 0 <= k <= |current|
      invariant |r| == |scanned|
      invariant forall i :: 0 <= i < n ==> r[i] == KeepStatus(scanned[i], StateOf(current, scanned[i].name))
      invariant forall i :: n <= i < |r| ==> r[i] == scanned[i]
      invariant n < |scanned| ==> forall j :: 0 <= j < k ==> Less(cs[j], fs[n])
      decreases |scanned| - n + |current| - k
    {
      LessTotal(fs[n], cs[k]);
      if Less(fs[n], cs[k]) {
        NotListed(fs[n], cs, k);
        if n + 1 < |scanned| {
          Advance(cs, k, fs, n);
        }
        n := n + 1;
      } else if fs[n] == cs[k] {
        StateOfEntry(current, k);
        r := r[n := KeepStatus(scanned[n], Some(current[k].state))];
        if n + 1 < |scanned| {
          Advance(cs, k, fs, n);
          assert Less(cs[k], fs[n + 1]);
        }
        n := n + 1;
        k := k + 1;
      } else {
        k := k + 1;
      }
    }
    if k == |current| {
      assert Sorted(cs);
      RestUnlisted(cs, fs, n);
    }
  }

  /** The catalogue shared with clients, and the data directory it lists. */
  datatype Shared = Shared(dataDirectory: string, recordings: seq<Recording>)

  /** The end of a rescan. In the same directory, the merged list replaces
      the shared one and is broadcast if it differs, otherwise a broadcast
      happens only when forced; a changed directory replaces both and is
      always broadcast. */
  method Refresh(shared: Shared, directory: string, scanned: seq<Recording>, forceSend: bool) returns (next: Shared, broadcast: bool)
    requires Ordered(scanned) && Ordered(shared.recordings)
    ensures next.dataDirectory == directory
    ensures directory != shared.dataDirectory ==> next.recordings == scanned && broadcast
    ensures directory == shared.dataDirectory ==>
      && |next.recordings| == |scanned|
      && (forall i :: 0 <= i < |scanned| ==>
            next.recordings[i] == KeepStatus(scanned[i], StateOf(shared.recordings, scanned[i].name)))
      && (broadcast <==> next.recordings != shared.recordings || forceSend)
  {
    if shared.dataDirectory == directory {
      var merged := Merge(scanned, shared.recordings);
      next := Shared(directory, merged);
      broadcast := merged != shared.recordings || forceSend;
    } else {
      next := Shared(directory, scanned);
      broadcast := true;
    }
  }

  /** The position of the first queued recording without a zip archive, or
      the length when there is none. */
  function FirstToConvert(rs: seq<Recording>): (k: nat)
    ensures k <= |rs|
    ensures k < |rs| ==> rs[k].state.Queued? && !rs[k].state.zip
    ensures forall i :: 0 <= i < k ==> !(rs[i].state.Queued? && !rs[i].state.zip)
  {
    if |rs| == 0 then 0
    else if rs[0].state.Queued? && !rs[0].state.zip then 0
    else 1 + FirstToConvert(rs[1..])
  }

  /** The conversion task's pick: walking the catalogue in order, a queued
      recording that already has a zip archive is completed, and the first
      queued one without is marked converting, its name returned, and the
      walk stops. Later recordings are left for the next round. `changed`
      says whether anything was touched (then the catalogue is broadcast). */
  method Pick(rs: seq<Recording>) returns (r: seq<Recording>, name: Option<string>, changed: bool)
    ensures |r| == |rs|
    ensures var k := FirstToConvert(rs);
      && (forall i :: 0 <= i < k ==>
            r[i] == if rs[i].state.Queued? then rs[i].(state := Complete(rs[i].state.size, true)) else rs[i])
      && (k < |rs| ==> r[k] == rs[k].(state := Converting(rs[k].state.size, false)) && name == Some(rs[k].name))
      && (k == |rs| ==> name == None)
      && (forall i :: k < i < |rs| ==> r[i] == rs[i])
    ensures changed <==> exists i :: 0 <= i < |rs| && i <= FirstToConvert(rs) && rs[i].state.Queued?
    ensures (forall i :: 0 <= i < |rs| ==> !rs[i].state.Converting?) ==>
      forall i, j :: 0 <= i < j < |r| ==> !(r[i].state.Converting? && r[j].state.Converting?)
  {
    ghost var k := FirstToConvert(rs);
    r := rs;
    name := None;
    changed := false;
    var i := 0;
    while i < |rs|
      invariant i <= k
      invariant |r| == |rs|
      invariant forall j :: 0 <= j < i ==>
        r[j] == if rs[j].state.Queued? then rs[j].(state := Complete(rs[j].state.size, true)) else rs[j]
      invariant forall j :: i <= j < |rs| ==> r[j] == rs[j]
      invariant changed <==> exists j :: 0 <= j < i && rs[j].state.Queued?
    {
      var state := rs[i].state;
      if state.Queued? {
        changed := true;
        if state.zip {
          r := r[i := rs[i].(state := Complete(state.size, state.zip))];
        } else {
          r := r[i := rs[i].(state := Converting(state.size, state.zip))];
          name := Some(rs[i].name);
          return;
        }
      }
      i := i + 1;
    }
  }

  /** When the conversion task finishes and the data directory has not
      changed, every converting recording is complete again with the same
      size and zip flag. */
  function Finish(rs: seq<Recording>, sameDirectory: bool): (r: seq<Recording>)
    ensures |r| == |rs|
    ensures forall i :: 0 <= i < |rs| ==> r[i].name == rs[i].name
    ensures sameDirectory ==> forall i :: 0 <= i < |rs| ==>
      r[i].state == (if rs[i].state.Converting? then Complete(rs[i].state.size, rs[i].state.zip) else rs[i].state)
    ensures !sameDirectory ==> r == rs
  {
    if !sameDirectory then rs
    else
      seq(|rs|, i requires 0 <= i < |rs| =>
        if rs[i].state.Converting? then rs[i].(state := Complete(rs[i].state.size, rs[i].state.zip)) else rs[i])
  }

  /** The whole life cycle of one recording: queued by a request, picked for
      conversion, and complete again when the conversion ends. */
  method LifeCycle(name: string, size: nat) returns (queued: Recording, picked: seq<Recording>, finished: seq<Recording>)
    ensures queued == Recording(name, Queued(size, false))
    ensures picked == [Recording(name, Converting(size, false))]
    ensures finished == [Recording(name, Complete(size, false))]
  {
    queued := Queue(Recording(name, Complete(size, false)), [name]);
    assert FirstToConvert([queued]) == 0;
    var converting, changed;
    picked, converting, changed := Pick([queued]);
    assert converting == Some(name);
    finished := Finish(picked, true);
  }
}
