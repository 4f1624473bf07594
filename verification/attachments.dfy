/** The canvases (or chart elements) a painter draws on, each with the id
    `attach` handed out for it: `contextsAndIds` and `nextCanvasId` in
    ui/src/painter.ts and ui/src/eventPainter.ts, `nextElementId` in
    ui/src/samplePainter.ts. A target is compared by identity, which is
    equality here. */
module Attachments {
  import opened Wrappers

  datatype Registry<C> = Registry(nextId: nat, entries: seq<(C, nat)>)

  function Empty<C>(): (r: Registry<C>)
    ensures r.nextId == 0 && r.entries == []
  {
    Registry(0, [])
  }

  datatype AttachError = AlreadyAttached | NotAttached

  predicate IsAttached<C(==)>(reg: Registry<C>, target: C)
  {
    exists k :: 0 <= k < |reg.entries| && reg.entries[k].0 == target
  }

  predicate HasId<C>(reg: Registry<C>, id: nat)
  {
    exists k :: 0 <= k < |reg.entries| && reg.entries[k].1 == id
  }

  /** What every registry reachable from `Empty` satisfies: ids increase
      along the entries and stay below `nextId`, and no target is attached
      twice. */
  ghost predicate Valid<C>(reg: Registry<C>)
  {
    && (forall j, k :: 0 <= j < k < |reg.entries| ==> reg.entries[j].1 < reg.entries[k].1)
    && (forall k :: 0 <= k < |reg.entries| ==> reg.entries[k].1 < reg.nextId)
    && (forall j, k :: 0 <= j < k < |reg.entries| ==> reg.entries[j].0 != reg.entries[k].0)
  }

  /** `attachCanvas`/`attach`: a target already attached throws; otherwise
      it is appended with the next id, which is returned, and the counter
      moves on. */
  function Attach<C(==)>(reg: Registry<C>, target: C): (r: Result<(Registry<C>, nat), AttachError>)
    ensures r.Err? <==> IsAttached(reg, target)
    ensures r.Err? ==> r.error == AlreadyAttached
    ensures r.Ok? ==> r.value.1 == reg.nextId && r.value.0.nextId == reg.nextId + 1
    ensures r.Ok? ==> r.value.0.entries == reg.entries + [(target, r.value.1)]
  {
    if exists k :: 0 <= k < |reg.entries| && reg.entries[k].0 == target then Err(AlreadyAttached)
    else Ok((Registry(reg.nextId + 1, reg.entries + [(target, reg.nextId)]), reg.nextId))
  }

  /** The position of the first entry with this id, where the loop in
      `detach` stops. */
  function FirstWithId<C>(entries: seq<(C, nat)>, id: nat): (r: Option<nat>)
    ensures r.Some? ==> r.value < |entries| && entries[r.value].1 == id
    ensures r.Some? ==> forall k :: 0 <= k < r.value ==> entries[k].1 != id
    ensures r.None? ==> forall k :: 0 <= k < |entries| ==> entries[k].1 != id
    decreases |entries|
  {
    if |entries| == 0 then None
    else if entries[0].1 == id then Some(0)
    else
      match FirstWithId(entries[1..], id)
      case None => None
      case Some(k) => Some(k + 1)
  }

  /** `detachCanvas`/`detach`: the first entry with the id is spliced out;
      an id with no entry throws. The counter is kept, so an id is never
      handed out again. */
  function Detach<C>(reg: Registry<C>, id: nat): (r: Result<Registry<C>, AttachError>)
    ensures r.Err? <==> !HasId(reg, id)
    ensures r.Err? ==> r.error == NotAttached
    ensures r.Ok? ==> r.value.nextId == reg.nextId && |r.value.entries| == |reg.entries| - 1
  {
    match FirstWithId(reg.entries, id)
    case None => Err(NotAttached)
    case Some(k) => Ok(Registry(reg.nextId, reg.entries[..k] + reg.entries[k + 1..]))
  }

  /** Attaching keeps the registry valid, and the id handed out was not in
      use. */
  lemma AttachKeepsValid<C>(reg: Registry<C>, target: C)
    requires Valid(reg)
    ensures var r := Attach(reg, target);
      r.Ok? ==> Valid(r.value.0) && !HasId(reg, r.value.1) && HasId(r.value.0, r.value.1)
  {
    var r := Attach(reg, target);
    if r.Ok? {
      var entries := r.value.0.entries;
      assert entries[|entries| - 1].1 == r.value.1;
    }
  }

  /** The ids in use after an attach: the old ones and the new one. */
  lemma AttachIds<C>(reg: Registry<C>, target: C, i: nat)
    requires Attach(reg, target).Ok?
    ensures var (after, id) := Attach(reg, target).value;
      HasId(after, i) <==> HasId(reg, i) || i == id
  {
    var (after, id) := Attach(reg, target).value;
    if HasId(reg, i) {
      var k :| 0 <= k < |reg.entries| && reg.entries[k].1 == i;
      assert after.entries[k] == reg.entries[k];
    }
    if i == id {
      assert after.entries[|reg.entries|].1 == id;
    }
    if HasId(after, i) {
      var k :| 0 <= k < |after.entries| && after.entries[k].1 == i;
      if k < |reg.entries| {
        assert after.entries[k] == reg.entries[k];
      }
    }
  }

  /** The entries after splicing out position `k`. */
  lemma Splice<T>(e: seq<T>, k: nat)
    requires k < |e|
    ensures var rest := e[..k] + e[k + 1..];
      |rest| == |e| - 1 && forall i :: 0 <= i < |rest| ==> rest[i] == if i < k then e[i] else e[i + 1]
  {
  }

  /** Detaching keeps a registry valid, and the id is gone afterwards. */
  lemma DetachKeepsValid<C>(reg: Registry<C>, id: nat)
    requires Valid(reg)
    ensures var r := Detach(reg, id); r.Ok? ==> Valid(r.value) && !HasId(r.value, id)
  {
    var r := Detach(reg, id);
    if r.Ok? {
      var k := FirstWithId(reg.entries, id).value;
      Splice(reg.entries, k);
    }
  }

  /** Detaching removes nothing but the entry with that id: every entry
      with another id is still there. */
  lemma DetachKeepsOthers<C>(reg: Registry<C>, id: nat)
    ensures var r := Detach(reg, id);
      r.Ok? ==> forall k :: 0 <= k < |reg.entries| && reg.entries[k].1 != id ==> reg.entries[k] in r.value.entries
  {
    var r := Detach(reg, id);
    if r.Ok? {
      var k := FirstWithId(reg.entries, id).value;
      var e := reg.entries;
      var rest := r.value.entries;
      Splice(e, k);
      forall i | 0 <= i < |e| && e[i].1 != id
        ensures e[i] in rest
      {
        if i < k {
          assert rest[i] == e[i];
        } else {
          assert rest[i - 1] == e[i];
        }
      }
    }
  }

  /** Detaching the id just handed out gives back the registry as it was,
      with the counter moved on. */
  lemma AttachThenDetach<C>(reg: Registry<C>, target: C)
    requires Valid(reg)
    requires Attach(reg, target).Ok?
    ensures var (after, id) := Attach(reg, target).value;
      Detach(after, id) == Ok(Registry(reg.nextId + 1, reg.entries))
  {
    var (after, id) := Attach(reg, target).value;
    var n := |reg.entries|;
    assert after.entries[n].1 == id;
    assert forall i :: 0 <= i < n ==> after.entries[i].1 != id by {
      forall i | 0 <= i < n
        ensures after.entries[i].1 != id
      {
        assert after.entries[i] == reg.entries[i];
      }
    }
    assert FirstWithId(after.entries, id) == Some(n);
    assert after.entries[..n] + after.entries[n + 1..] == reg.entries;
    assert Detach(after, id) == Ok(Registry(after.nextId, after.entries[..n] + after.entries[n + 1..]));
  }
}
