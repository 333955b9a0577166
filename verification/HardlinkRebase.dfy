/** Hardlink groups after filtering (src/directory_fs.zig): the first file left in a group becomes its name. */
module HardlinkRebase {
  import opened Wire
  import opened Metadata
  import opened Snapshots
  import opened Selection
  import opened PathFilter
  import MetadataCanonical
  import Paths
  import Structure

  /** The name of the group a file belongs to. */
  function Group(e: Entry): (g: bytes) {
    if e.meta.hardlinkTo.Some? then e.meta.hardlinkTo.value else e.path
  }

  /** The first file of group `g` among the first `n` entries. */
  function First(entries: seq<Entry>, n: nat, g: bytes): (r: Option<nat>)
    requires n <= |entries|
    ensures r.Some? ==> && r.value < n && entries[r.value].content.Regular? && Group(entries[r.value]) == g
                        && forall i :: 0 <= i < r.value && entries[i].content.Regular? ==> Group(entries[i]) != g
    ensures r.None? ==> forall i :: 0 <= i < n && entries[i].content.Regular? ==> Group(entries[i]) != g
  {
    if n == 0 then None
    else if First(entries, n - 1, g).Some? then First(entries, n - 1, g)
    else if entries[n - 1].content.Regular? && Group(entries[n - 1]) == g then Some(n - 1)
    else None
  }

  function RebasedEntry(entries: seq<Entry>, i: nat): (e: Entry)
    requires i < |entries|
  {
    if !entries[i].content.Regular? then entries[i]
    else
      var first := First(entries, i, Group(entries[i]));
      entries[i].(meta := entries[i].meta.(hardlinkTo := if first.None? then None else Some(entries[first.value].path)))
  }

  function Rebased(entries: seq<Entry>): (r: seq<Entry>)
    ensures |r| == |entries|
    ensures forall i :: 0 <= i < |entries| ==> r[i] == RebasedEntry(entries, i)
  {
    seq(|entries|, i requires 0 <= i < |entries| => RebasedEntry(entries, i))
  }

  /** The table after `n` entries: each group met so far, with its first path. */
  ghost predicate Table(canonical: map<bytes, bytes>, entries: seq<Entry>, n: nat) {
    && n <= |entries|
    && (forall g :: g in canonical <==> First(entries, n, g).Some?)
    && (forall g :: g in canonical ==> canonical[g] == entries[First(entries, n, g).value].path)
  }

  lemma TableStep(canonical: map<bytes, bytes>, entries: seq<Entry>, n: nat)
    requires Table(canonical, entries, n) && n < |entries|
    ensures var g := Group(entries[n]);
            Table(if entries[n].content.Regular? && g !in canonical then canonical[g := entries[n].path] else canonical,
                  entries, n + 1)
  {
    hide Group;
    forall g ensures First(entries, n + 1, g) ==
                     if First(entries, n, g).Some? then First(entries, n, g)
                     else if entries[n].content.Regular? && Group(entries[n]) == g then Some(n) else None
    {
    }
  }

  /** `rebaseHardlinks`: one pass, a table from group to the first path seen, entries changed in place. */
  method Rebase(entries: array<Entry>)
    modifies entries
    ensures entries[..] == Rebased(old(entries[..]))
  {
    hide First, Group;
    ghost var input := entries[..];
    var canonical: map<bytes, bytes> := map[];
    assert Table(canonical, input, 0) by { TableStart(input); }
    for i := 0 to entries.Length
      invariant forall k :: i <= k < entries.Length ==> entries[k] == input[k]
      invariant forall k :: 0 <= k < i ==> entries[k] == RebasedEntry(input, k)
      invariant Table(canonical, input, i)
    {
      var e := entries[i];
      assert e == input[i];
      TableStep(canonical, input, i);
      if e.content.Regular? {
        var group := Group(e);
        if group in canonical {
          entries[i] := e.(meta := e.meta.(hardlinkTo := Some(canonical[group])));
        } else {
          canonical := canonical[group := e.path];
          entries[i] := e.(meta := e.meta.(hardlinkTo := None));
        }
      }
    }
  }

  lemma TableStart(entries: seq<Entry>)
    ensures Table(map[], entries, 0)
  {
  }

  /* ---------- What rebasing keeps ---------- */

  /** A snapshot that passes the snapshot and relation checks. */
  predicate PassesChecks(entries: seq<Entry>) {
    Structure.Fault(Records(entries)).None? && RelationsFault(entries, |entries|).None?
  }

  /** Within a checked snapshot, `t` is the plain file that gives `e`'s group its name. */
  predicate Names(t: Entry, e: Entry) {
    && t.path == Group(e) && t.meta.hardlinkTo.None? && t.content == e.content
    && SharedMetadataEqual(e.meta, t.meta)
  }

  lemma GroupNamed(raw: seq<Entry>, i: nat) returns (t: nat)
    requires PassesChecks(raw) && i < |raw| && raw[i].content.Regular?
    ensures t <= i && Names(raw[t], raw[i])
  {
    hide Structure.Fault, HolesFit;
    RelationsFaultMeans(raw, |raw|);
    if raw[i].meta.hardlinkTo.None? {
      t := i;
    } else {
      assert HardlinkHolds(raw, i);
      t := FindPath(raw[..i], raw[i].meta.hardlinkTo.value).value;
    }
  }

  /** Two files of one group are the same file in everything but the reference. */
  lemma SameGroupSameFile(raw: seq<Entry>, i: nat, j: nat)
    requires PassesChecks(raw) && i < |raw| && j < |raw|
    requires raw[i].content.Regular? && raw[j].content.Regular? && Group(raw[i]) == Group(raw[j])
    ensures raw[i].content == raw[j].content && SharedMetadataEqual(raw[i].meta, raw[j].meta)
  {
    hide Structure.Fault, RelationsFault;
    var s := GroupNamed(raw, i);
    var t := GroupNamed(raw, j);
    WellFormedPaths(raw);
    FindPathUnique(raw, s);
    FindPathUnique(raw, t);
  }

  /** Rebasing changes neither paths, kinds, modes nor contents. */
  lemma RebasedRecords(entries: seq<Entry>)
    ensures Records(Rebased(entries)) == Records(entries)
    ensures EntryPaths(Rebased(entries)) == EntryPaths(entries)
  {
    hide First;
    forall i | 0 <= i < |entries| ensures Records(Rebased(entries))[i] == Records(entries)[i] {
      assert Rebased(entries)[i] == RebasedEntry(entries, i);
    }
  }

  /** A part of a checked snapshot that is itself a well-formed tree. */
  ghost predicate PartOf(entries: seq<Entry>, raw: seq<Entry>) {
    && PassesChecks(raw) && Structure.Fault(Records(entries)).None?
    && forall e :: e in entries ==> e in raw
  }

  lemma PartSameFile(entries: seq<Entry>, raw: seq<Entry>, i: nat, j: nat)
    requires PartOf(entries, raw) && i < |entries| && j < |entries|
    requires entries[i].content.Regular? && entries[j].content.Regular? && Group(entries[i]) == Group(entries[j])
    ensures entries[i].content == entries[j].content && SharedMetadataEqual(entries[i].meta, entries[j].meta)
  {
    hide Structure.Fault, RelationsFault;
    assert entries[i] in raw && entries[j] in raw;
    var a :| 0 <= a < |raw| && raw[a] == entries[i];
    var b :| 0 <= b < |raw| && raw[b] == entries[j];
    SameGroupSameFile(raw, a, b);
  }

  lemma PartRelations(entries: seq<Entry>, raw: seq<Entry>, i: nat)
    requires PartOf(entries, raw) && i < |entries|
    ensures HolesFit(entries[i])
    ensures entries[i].meta.hardlinkTo.Some? ==> entries[i].content.Regular?
  {
    hide Structure.Fault;
    assert entries[i] in raw;
    var a :| 0 <= a < |raw| && raw[a] == entries[i];
    RelationsFaultMeans(raw, |raw|);
    assert HolesFit(raw[a]) && HardlinkHolds(raw, a);
  }

  lemma RebasedHolds(entries: seq<Entry>, raw: seq<Entry>, i: nat)
    requires PartOf(entries, raw) && i < |entries|
    ensures HolesFit(Rebased(entries)[i]) && HardlinkHolds(Rebased(entries), i)
  {
    hide Structure.Fault, RelationsFault;
    var r := Rebased(entries);
    PartRelations(entries, raw, i);
    if entries[i].content.Regular? && First(entries, i, Group(entries[i])).Some? {
      var f := First(entries, i, Group(entries[i])).value;
      PartSameFile(entries, raw, i, f);
      assert r[f] == RebasedEntry(entries, f) && First(entries, f, Group(entries[f])).None?;
      PrefixFinds(entries, i, f);
    }
  }

  lemma PrefixFinds(entries: seq<Entry>, i: nat, f: nat)
    requires Structure.Fault(Records(entries)).None? && f < i < |entries|
    ensures FindPath(Rebased(entries)[..i], entries[f].path) == Some(f)
  {
    hide Structure.Fault, First;
    WellFormedPaths(entries);
    RebasedRecords(entries);
    var r := Rebased(entries)[..i];
    assert EntryPaths(r) == EntryPaths(entries)[..i];
    FindPathUnique(r, f);
  }

  /**
   After any selection by rules, with the ancestors it forces, the rebased entries pass the
   snapshot checks and the relation checks again.
   */
  lemma RebasedChecked(raw: seq<Entry>, f: Filter)
    requires PassesChecks(raw)
    ensures PassesChecks(Rebased(Chosen(raw, f)))
  {
    hide Structure.WellFormed, HolesFit, HardlinkHolds, Pick;
    var entries := Chosen(raw, f);
    ChosenPart(raw, f);
    var r := Rebased(entries);
    RebasedRecords(entries);
    forall i | 0 <= i < |r| ensures HolesFit(r[i]) && HardlinkHolds(r, i) {
      RebasedHolds(entries, raw, i);
    }
    RelationsFaultMeans(r, |r|);
  }

  lemma ChosenPart(raw: seq<Entry>, f: Filter)
    requires PassesChecks(raw)
    ensures PartOf(Chosen(raw, f), raw)
  {
    hide Structure.WellFormed, RelationsFault;
    Structure.FaultMeans(Records(raw));
    ChosenWellFormed(raw, f);
    Structure.FaultMeans(Records(Chosen(raw, f)));
    PickedFrom(raw, SelectedFlags(raw, f));
  }

  /** Two files left by the selection share a group afterwards exactly when they did before. */
  lemma GroupsPreserved(entries: seq<Entry>, i: nat, j: nat)
    requires Structure.Fault(Records(entries)).None? && i < |entries| && j < |entries|
    requires entries[i].content.Regular? && entries[j].content.Regular?
    ensures Group(Rebased(entries)[i]) == Group(Rebased(entries)[j]) <==> Group(entries[i]) == Group(entries[j])
  {
    hide Structure.Fault, First, Group, RebasedEntry;
    WellFormedPaths(entries);
    var a := Leader(entries, i);
    var b := Leader(entries, j);
    FindPathUnique(entries, a);
    FindPathUnique(entries, b);
  }

  /** The canonical file of a group is its first included path. */
  lemma Leader(entries: seq<Entry>, i: nat) returns (first: nat)
    requires i < |entries| && entries[i].content.Regular?
    ensures first <= i && entries[first].content.Regular? && Group(entries[first]) == Group(entries[i])
    ensures forall k :: 0 <= k < first && entries[k].content.Regular? ==> Group(entries[k]) != Group(entries[i])
    ensures Group(Rebased(entries)[i]) == entries[first].path
    ensures Rebased(entries)[i].meta.hardlinkTo == if first == i then None else Some(entries[first].path)
    ensures Rebased(entries)[first].meta.hardlinkTo.None?
  {
    var r := First(entries, i, Group(entries[i]));
    first := if r.None? then i else r.value;
    assert Rebased(entries)[first] == RebasedEntry(entries, first);
    assert First(entries, first, Group(entries[first])).None?;
  }

  /** A snapshot that already passes is left alone, so rebasing twice is rebasing once. */
  lemma RebasedFixed(entries: seq<Entry>)
    requires PassesChecks(entries)
    ensures Rebased(entries) == entries
  {
    forall i | 0 <= i < |entries| ensures Rebased(entries)[i] == entries[i] {
      if entries[i].content.Regular? {
        FixedEntry(entries, i);
      }
    }
  }

  lemma FixedEntry(entries: seq<Entry>, i: nat)
    requires PassesChecks(entries) && i < |entries| && entries[i].content.Regular?
    ensures Rebased(entries)[i] == entries[i]
  {
    hide Structure.Fault, RelationsFault;
    var t := GroupNamed(entries, i);
    var first := Leader(entries, i);
    var s := GroupNamed(entries, first);
    WellFormedPaths(entries);
    FindPathUnique(entries, t);
    FindPathUnique(entries, s);
    assert s == t == first;
    assert Rebased(entries)[i] == RebasedEntry(entries, i);
    if entries[i].meta.hardlinkTo.None? {
      FindPathUnique(entries, i);
    }
    var m := entries[i].meta;
    assert m.(hardlinkTo := m.hardlinkTo) == m;
  }

  /** The filtered and rebased snapshot is canonical when the whole one was. */
  lemma RebasedCanonical(s: Snapshot, f: Filter)
    requires Canonical(s)
    ensures Canonical(Snapshot(Rebased(Chosen(s.entries, f)), s.root))
  {
    hide Structure.Fault, RelationsFault, Pick, MetadataCanonical.Canonical;
    var entries := Chosen(s.entries, f);
    RebasedChecked(s.entries, f);
    ChosenPart(s.entries, f);
    WellFormedPaths(entries);
    forall i | 0 <= i < |entries|
      ensures MetadataCanonical.Canonical(Rebased(entries)[i].meta) && |Rebased(entries)[i].content.Body()| < U64_LIMIT
    {
      assert entries[i] in s.entries;
      RelinkedCanonical(entries, i);
    }
  }

  lemma RelinkedCanonical(entries: seq<Entry>, i: nat)
    requires i < |entries| && MetadataCanonical.Canonical(entries[i].meta)
    requires forall k :: 0 <= k < |entries| ==> Paths.ValidPath(entries[k].path)
    ensures MetadataCanonical.Canonical(Rebased(entries)[i].meta) && Rebased(entries)[i].content == entries[i].content
  {
    hide Paths.ValidPath, First;
    assert Rebased(entries)[i] == RebasedEntry(entries, i);
    forall k | 0 <= k < |entries| ensures HardlinkOk(entries[k].path) {
      HardlinkIsPath(entries[k].path);
    }
  }
}
