/** The recordings directory scan (src/recordings.rs): file names are
    classified by suffix, grouped by recording name, and turned into the
    sorted catalogue. A directory listing is an input sequence; renaming and
    deleting files, reading metadata and I/O errors are left to the caller. */
module Recordings {
  import opened Wrappers
  import opened Text
  import opened ServerProtocol
  import Catalogue

  datatype FileType = Index | Raw | Samples | Metadata

  /** One directory entry: its file name, whether it is a regular file, and
      its size in bytes. */
  datatype Entry = Entry(fileName: string, isFile: bool, size: nat)

  function Suffix(t: FileType): (r: string)
    ensures |r| >= 5 && r[0] == '.'
  {
    match t
    case Index => ".index.kai"
    case Raw => ".raw.kai"
    case Samples => ".samples.kai"
    case Metadata => ".toml"
  }

  /** A file still being written is renamed without its `.write` extension
      before it is classified. */
  function Renamed(fileName: string): (r: string)
    ensures r == fileName || (EndsWith(fileName, ".write") && fileName == r + ".write")
  {
    if EndsWith(fileName, ".write") then fileName[..|fileName| - 6] else fileName
  }

  /** `load_recording_file`: hidden files and non-files are ignored; the
      suffixes are tried in the order index, raw, samples, metadata, and the
      name is what precedes the suffix. */
  function ClassifyRecording(e: Entry): (r: Option<(string, FileType, nat)>)
    ensures r.Some? ==> e.isFile && !StartsWith(e.fileName, ".")
    ensures r.Some? ==> r.value.0 + Suffix(r.value.1) == Renamed(e.fileName) && r.value.2 == e.size
    ensures r.None? && e.isFile && !StartsWith(e.fileName, ".") ==>
      forall t :: !EndsWith(Renamed(e.fileName), Suffix(t))
  {
    if !e.isFile || StartsWith(e.fileName, ".") then None
    else
      var name := Renamed(e.fileName);
      var n := |name|;
      if EndsWith(name, ".index.kai") then Some((name[..n - 10], Index, e.size))
      else if EndsWith(name, ".raw.kai") then Some((name[..n - 8], Raw, e.size))
      else if EndsWith(name, ".samples.kai") then Some((name[..n - 12], Samples, e.size))
      else if EndsWith(name, ".toml") then Some((name[..n - 5], Metadata, e.size))
      else
        assert forall t :: Suffix(t) in {".index.kai", ".raw.kai", ".samples.kai", ".toml"};
        None
  }

  /** Each recording file is classified back to its name and type. */
  lemma ClassifyRecordingRoundTrip(name: string, t: FileType, size: nat)
    requires !StartsWith(name + Suffix(t), ".")
    ensures ClassifyRecording(Entry(name + Suffix(t), true, size)) == Some((name, t, size))
  {
    var f := name + Suffix(t);
    var n := |f|;
    var s := Suffix(t);
    assert f[n - |s|..] == s;
    assert f[..|name|] == name;
    assert f[n - 1] == 'i' || f[n - 1] == 'l';
    assert !EndsWith(f, ".write") by {
      if |f| >= 6 {
        assert f[n - 6..][5] == f[n - 1];
      }
    }
    match t {
      case Index =>
      case Raw =>
        assert f[n - 8] == '.';
        assert !EndsWith(f, ".index.kai") by {
          if |f| >= 10 {
            assert f[n - 10..][2] == f[n - 8];
          }
        }
      case Samples =>
        assert f[n - 10] == 'a' && f[n - 8] == 'p';
        assert !EndsWith(f, ".index.kai") by {
          if |f| >= 10 {
            assert f[n - 10..][0] == f[n - 10];
          }
        }
        assert !EndsWith(f, ".raw.kai") by {
          assert f[n - 8..][0] == f[n - 8];
        }
      case Metadata =>
        assert f[n - 4] == 't';
        assert !EndsWith(f, ".index.kai") by {
          if |f| >= 10 {
            assert f[n - 10..][6] == f[n - 4];
          }
        }
        assert !EndsWith(f, ".raw.kai") by {
          if |f| >= 8 {
            assert f[n - 8..][4] == f[n - 4];
          }
        }
        assert !EndsWith(f, ".samples.kai") by {
          if |f| >= 12 {
            assert f[n - 12..][8] == f[n - 4];
          }
        }
    }
  }

  /** `load_converted_file`: hidden files and non-files are ignored, a
      partial `.write` file yields nothing (it is deleted), and a `.zip`
      archive yields its name without the extension. */
  function ClassifyConverted(e: Entry): (r: Option<string>)
    ensures r.Some? <==> e.isFile && !StartsWith(e.fileName, ".") && !EndsWith(e.fileName, ".write") && EndsWith(e.fileName, ".zip")
    ensures r.Some? ==> r.value + ".zip" == e.fileName
  {
    if !e.isFile || StartsWith(e.fileName, ".") || EndsWith(e.fileName, ".write") then None
    else if EndsWith(e.fileName, ".zip") then Some(e.fileName[..|e.fileName| - 4])
    else None
  }

  /** One classified recording file: its recording name, type and size. */
  type Item = (string, FileType, nat)

  /** The classified files of a listing, in listing order. */
  function Classified(entries: seq<Entry>): (r: seq<Item>)
    ensures |r| <= |entries|
    ensures forall k :: 0 <= k < |r| ==> exists i :: 0 <= i < |entries| && ClassifyRecording(entries[i]) == Some(r[k])
    ensures forall i :: 0 <= i < |entries| && ClassifyRecording(entries[i]).Some? ==> ClassifyRecording(entries[i]).value in r
    decreases |entries|
  {
    if |entries| == 0 then []
    else
      var rest := Classified(entries[1..]);
      assert forall i :: 1 <= i < |entries| ==> entries[1..][i - 1] == entries[i];
      match ClassifyRecording(entries[0])
      case None => rest
      case Some(item) => [item] + rest
  }

  /** The sizes of the files found for one recording name. */
  datatype Files = Files(index: Option<nat>, raw: Option<nat>, samples: Option<nat>, metadata: Option<nat>)

  function Slot(f: Files, t: FileType): Option<nat>
  {
    match t
    case Index => f.index
    case Raw => f.raw
    case Samples => f.samples
    case Metadata => f.metadata
  }

  function WithSlot(f: Files, t: FileType, size: nat): (r: Files)
    ensures Slot(r, t) == Some(size)
    ensures forall u :: u != t ==> Slot(r, u) == Slot(f, u)
  {
    match t
    case Index => f.(index := Some(size))
    case Raw => f.(raw := Some(size))
    case Samples => f.(samples := Some(size))
    case Metadata => f.(metadata := Some(size))
  }

  /** The name-to-files table, with the names in the order first seen (the
      iteration order of the table is immaterial: the result is sorted). */
  datatype Table = Table(order: seq<string>, files: map<string, Files>)

  ghost predicate TableValid(t: Table)
  {
    && (forall x :: x in t.files <==> x in t.order)
    && (forall x :: multiset(t.order)[x] <= 1)
  }

  /** The recording names among the classified files. */
  function ItemNames(items: seq<Item>): set<string>
  {
    set k | 0 <= k < |items| :: items[k].0
  }

  /** The table after the classified files, one at a time: a name seen
      before has the slot of the file's type overwritten, a new name gets a
      table entry with only that slot. */
  function Aggregate(items: seq<Item>): (r: Table)
    ensures TableValid(r)
    ensures r.files.Keys == ItemNames(items)
    decreases |items|
  {
    if |items| == 0 then Table([], map[])
    else
      var init := items[..|items| - 1];
      var before := Aggregate(init);
      var (name, t, size) := items[|items| - 1];
      assert ItemNames(items) == ItemNames(init) + {name} by {
        assert forall k :: 0 <= k < |init| ==> init[k] == items[k];
      }
      if name in before.files then
        Table(before.order, before.files[name := WithSlot(before.files[name], t, size)])
      else
        assert multiset(before.order)[name] == 0;
        Table(before.order + [name], before.files[name := WithSlot(Files(None, None, None, None), t, size)])
  }

  /** The reference for a slot: the size of the last file of that type and
      name, if any. */
  function LastSize(items: seq<Item>, name: string, t: FileType): Option<nat>
    decreases |items|
  {
    if |items| == 0 then None
    else
      var c := items[|items| - 1];
      if c.0 == name && c.1 == t then Some(c.2)
      else LastSize(items[..|items| - 1], name, t)
  }

  /** Later files of the same name and type win: each slot of a name holds
      the size of the last file of that type listed. */
  lemma {:induction false} AggregateKeepsLast(items: seq<Item>, name: string, t: FileType)
    requires name in Aggregate(items).files
    ensures Slot(Aggregate(items).files[name], t) == LastSize(items, name, t)
    decreases |items|
  {
    if |items| > 0 {
      var init := items[..|items| - 1];
      if name in Aggregate(init).files {
        AggregateKeepsLast(init, name, t);
      } else {
        NoneBefore(init, name, t);
      }
    }
  }

  lemma {:induction false} NoneBefore(items: seq<Item>, name: string, t: FileType)
    requires name !in ItemNames(items)
    ensures LastSize(items, name, t) == None
    decreases |items|
  {
    if |items| > 0 {
      var init := items[..|items| - 1];
      assert items[|items| - 1].0 in ItemNames(items);
      assert ItemNames(init) <= ItemNames(items) by {
        assert forall k :: 0 <= k < |init| ==> init[k] == items[k];
      }
      NoneBefore(init, name, t);
    }
  }

  /** The state of one recording: complete with the total size when all four
      files are present (with a zip archive or not), incomplete with the size
      of the files present otherwise. */
  function StateOf(f: Files, zip: bool): (r: RecordingState)
    ensures r.Complete? <==> f.index.Some? && f.raw.Some? && f.samples.Some? && f.metadata.Some?
    ensures r.Complete? || r.Incomplete?
    ensures r.Complete? ==> r.zip == zip
    ensures r.size == SizeOf(f.index) + SizeOf(f.raw) + SizeOf(f.samples) + SizeOf(f.metadata)
  {
    var total := SizeOf(f.index) + SizeOf(f.raw) + SizeOf(f.samples) + SizeOf(f.metadata);
    if f.index.Some? && f.raw.Some? && f.samples.Some? && f.metadata.Some? then Complete(total, zip)
    else Incomplete(total)
  }

  function SizeOf(o: Option<nat>): nat
  {
    if o.Some? then o.value else 0
  }

  /** The names that have a zip archive in the converted directory. */
  function Zipped(converted: seq<Entry>): (r: set<string>)
    ensures forall x :: x in r <==> exists i :: 0 <= i < |converted| && ClassifyConverted(converted[i]) == Some(x)
  {
    set i | 0 <= i < |converted| && ClassifyConverted(converted[i]).Some? :: ClassifyConverted(converted[i]).value
  }

  /** One recording per name, in the given order. */
  function Listing(names: seq<string>, files: map<string, Files>, zips: set<string>): (r: seq<Recording>)
    requires forall k :: 0 <= k < |names| ==> names[k] in files
    ensures Catalogue.Names(r) == names
    ensures forall k :: 0 <= k < |r| ==> r[k].state == StateOf(files[names[k]], names[k] in zips)
  {
    var r := seq(|names|, k requires 0 <= k < |names| => Recording(names[k], StateOf(files[names[k]], names[k] in zips)));
    assert Catalogue.Names(r) == names;
    r
  }

  /** The table built from a listing. */
  function TableOf(entries: seq<Entry>): Table
  {
    Aggregate(Classified(entries))
  }

  /** `initialize`: nothing when the data or recordings directory is missing;
      otherwise one recording per name, sorted by name. A missing converted
      directory (`None`) means no archives. */
  function Initialize(directoriesExist: bool, entries: seq<Entry>, converted: Option<seq<Entry>>): (r: seq<Recording>)
    ensures !directoriesExist ==> r == []
    ensures Catalogue.Ordered(r)
    ensures directoriesExist ==> forall x :: x in Catalogue.Names(r) <==> x in TableOf(entries).files
    ensures directoriesExist ==> forall k :: 0 <= k < |r| ==>
      r[k].state == StateOf(TableOf(entries).files[r[k].name], converted.Some? && r[k].name in Zipped(converted.value))
  {
    if !directoriesExist then []
    else
      var table := TableOf(entries);
      var zips := if converted.Some? then Zipped(converted.value) else {};
      var names := Sort(table.order);
      SortedNames(table);
      Listing(names, table.files, zips)
  }

  /** The sorted names of a table: each key once, in increasing order. */
  lemma SortedNames(table: Table)
    requires TableValid(table)
    ensures StrictlySorted(Sort(table.order))
    ensures forall x :: x in Sort(table.order) <==> x in table.files
  {
    var names := Sort(table.order);
    SortedUnique(names, table.order);
    assert forall x :: x in names <==> x in multiset(names);
    assert forall x :: x in table.order <==> x in multiset(table.order);
  }

  /** A sequence in which nothing occurs twice has distinct positions. */
  lemma {:induction false} CountsDistinct(ys: seq<string>)
    requires forall x :: multiset(ys)[x] <= 1
    ensures forall i, j :: 0 <= i < j < |ys| ==> ys[i] != ys[j]
    decreases |ys|
  {
    if |ys| > 0 {
      var rest := ys[1..];
      assert ys == [ys[0]] + rest;
      assert forall x :: multiset(rest)[x] <= multiset(ys)[x];
      CountsDistinct(rest);
      assert multiset(rest)[ys[0]] == 0;
      forall i, j | 0 <= i < j < |ys|
        ensures ys[i] != ys[j]
      {
        assert ys[j] == rest[j - 1] && rest[j - 1] in multiset(rest);
        if i > 0 {
          assert ys[i] == rest[i - 1];
        }
      }
    }
  }

  /** Sorting a sequence without repetitions gives a strictly sorted one. */
  lemma SortedUnique(ys: seq<string>, xs: seq<string>)
    requires Sorted(ys) && multiset(ys) == multiset(xs)
    requires forall x :: multiset(xs)[x] <= 1
    ensures StrictlySorted(ys)
  {
    CountsDistinct(ys);
    SortedDistinct(ys);
  }

  /** A recording is complete exactly when a file of each of the four types
      was listed under its name, and its size is the sum of the sizes of the
      last such files. */
  lemma CompleteIffAllFour(directoriesExist: bool, entries: seq<Entry>, converted: Option<seq<Entry>>)
    ensures var rs := Initialize(directoriesExist, entries, converted);
      forall k :: 0 <= k < |rs| ==> StateFromFiles(rs[k].state, Classified(entries), rs[k].name)
  {
    var rs := Initialize(directoriesExist, entries, converted);
    forall k | 0 <= k < |rs|
      ensures StateFromFiles(rs[k].state, Classified(entries), rs[k].name)
    {
      assert rs[k].name in Catalogue.Names(rs);
      StateFromLast(Classified(entries), rs[k].name, converted.Some? && rs[k].name in Zipped(converted.value));
    }
  }

  /** The state agrees with the last file of each type listed for the name. */
  predicate StateFromFiles(state: RecordingState, items: seq<Item>, name: string)
  {
    && (state.Complete? <==> forall t :: LastSize(items, name, t).Some?)
    && !state.Ongoing? && state.size == SizeOf(LastSize(items, name, Index)) + SizeOf(LastSize(items, name, Raw))
      + SizeOf(LastSize(items, name, Samples)) + SizeOf(LastSize(items, name, Metadata))
  }

  lemma StateFromLast(items: seq<Item>, name: string, zip: bool)
    requires name in Aggregate(items).files
    ensures StateFromFiles(StateOf(Aggregate(items).files[name], zip), items, name)
  {
    var f := Aggregate(items).files[name];
    forall t
      ensures Slot(f, t) == LastSize(items, name, t)
    {
      AggregateKeepsLast(items, name, t);
    }
    assert f.index == Slot(f, Index) && f.raw == Slot(f, Raw) && f.samples == Slot(f, Samples) && f.metadata == Slot(f, Metadata);
  }
}
