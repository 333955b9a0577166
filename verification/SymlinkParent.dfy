/**
 All the symlinks of one directory (src/directory_fs.zig): the records their metadata leaves, the
 attribute that carries them, and the reading that finds and merges them again.
 */
module SymlinkParent {
  import opened Wire
  import opened ByteOrder
  import opened Metadata
  import opened Primitives
  import opened SymlinkTransport
  import opened SymlinkMerge
  import MetadataCanonical
  import MetadataNormalize
  import Paths

  /** One symlink: what is wanted, what the file system shows, and which attributes it took. */
  datatype Link = Link(
    path: bytes, desired: Metadata, native: Metadata, stored: Xattr -> bool, unstored: Xattr -> bool, birth: bool)

  function RecordOf(p: Primitives, omit: Omit, l: Link): (r: Option<Record>)
    ensures r.Some? ==> r.value.name == Basename(l.path)
  {
    BuildRecord(l.desired, l.native, l.path, Where(l.desired.xattrs, l.unstored),
                KeepingFor(p, l.desired, l.native, omit, l.birth))
  }

  /** The records the writer collects for the directory, in path order. */
  function Records(p: Primitives, omit: Omit, links: seq<Link>): (records: seq<Record>)
  {
    if links == [] then []
    else
      var last := RecordOf(p, omit, links[|links| - 1]);
      Records(p, omit, links[..|links| - 1]) + if last.Some? then [last.value] else []
  }

  /** The collecting loop. */
  method CollectRecords(p: Primitives, omit: Omit, links: seq<Link>) returns (records: seq<Record>)
    ensures records == Records(p, omit, links)
  {
    hide RecordOf;
    records := [];
    for i := 0 to |links|
      invariant records == Records(p, omit, links[..i])
    {
      assert links[..i + 1][..i] == links[..i];
      var record := RecordOf(p, omit, links[i]);
      if record.Some? {
        records := records + [record.value];
      }
    }
    assert links[..|links|] == links;
  }

  ghost predicate LinkOk(p: Primitives, omit: Omit, l: Link) {
    && Paths.ValidPath(l.path) && Restored(p, l.desired, l.native, omit, l.stored, l.birth)
    && forall x :: l.unstored(x) == !l.stored(x)
  }

  /** Symlinks of one directory in path order, each restored as far as the file system goes. */
  ghost predicate Siblings(p: Primitives, omit: Omit, links: seq<Link>) {
    && (forall i :: 0 <= i < |links| ==> LinkOk(p, omit, links[i]))
    && (forall i, j :: 0 <= i < j < |links| ==>
          Lt(links[i].path, links[j].path) && Parent(links[i].path) == Parent(links[j].path))
  }

  /** No record would carry a name with a drive prefix. */
  predicate NamesCarry(p: Primitives, omit: Omit, links: seq<Link>) {
    forall i :: 0 <= i < |links| ==> RecordOf(p, omit, links[i]).None? || !Paths.DrivePrefixed(Basename(links[i].path))
  }

  lemma {:induction false} RecordsFrom(p: Primitives, omit: Omit, links: seq<Link>)
    ensures forall r :: r in Records(p, omit, links) ==>
              exists i :: 0 <= i < |links| && RecordOf(p, omit, links[i]) == Some(r)
    ensures forall i :: 0 <= i < |links| && RecordOf(p, omit, links[i]).Some? ==>
              RecordOf(p, omit, links[i]).value in Records(p, omit, links)
  {
    hide RecordOf;
    if links != [] {
      var n := |links| - 1;
      var before := links[..n];
      RecordsFrom(p, omit, before);
      forall r | r in Records(p, omit, links)
        ensures exists i :: 0 <= i < |links| && RecordOf(p, omit, links[i]) == Some(r)
      {
        if r in Records(p, omit, before) {
          var i :| 0 <= i < |before| && RecordOf(p, omit, before[i]) == Some(r);
          assert RecordOf(p, omit, links[i]) == Some(r);
        } else {
          assert RecordOf(p, omit, links[n]) == Some(r);
        }
      }
      forall i | 0 <= i < |links| && RecordOf(p, omit, links[i]).Some?
        ensures RecordOf(p, omit, links[i]).value in Records(p, omit, links)
      {
        if i < n {
          assert before[i] == links[i];
        }
      }
    }
  }

  lemma NamesApart(p: Primitives, omit: Omit, links: seq<Link>, i: nat, j: nat)
    requires Siblings(p, omit, links) && i < j < |links|
    ensures Lt(Basename(links[i].path), Basename(links[j].path))
  {
    hide Restored, Paths.ValidPath, Lt, Basename, Parent;
    assert LinkOk(p, omit, links[i]) && LinkOk(p, omit, links[j]);
    SiblingNamesIncrease(links[i].path, links[j].path);
  }

  lemma {:induction false} RecordNamesIncrease(p: Primitives, omit: Omit, links: seq<Link>)
    requires Siblings(p, omit, links)
    ensures Increasing(Names(Records(p, omit, links)))
  {
    hide Lt, RecordOf, LinkOk, Increasing, Parent;
    if links == [] {
      NothingIncreases();
    } else {
      var n := |links| - 1;
      RecordNamesIncrease(p, omit, links[..n]);
      var last := RecordOf(p, omit, links[n]);
      if last.Some? {
        LastNameGreatest(p, omit, links);
        var done := Records(p, omit, links[..n]);
        IncreasingSnoc(Names(done), last.value.name);
        assert Names(done + [last.value]) == Names(done) + [last.value.name];
      } else {
        assert Records(p, omit, links) == Records(p, omit, links[..n]);
      }
    }
  }

  lemma NothingIncreases()
    ensures Increasing(Names([]))
  {
  }

  lemma LastNameGreatest(p: Primitives, omit: Omit, links: seq<Link>)
    requires Siblings(p, omit, links) && links != [] && RecordOf(p, omit, links[|links| - 1]).Some?
    ensures var done := Records(p, omit, links[..|links| - 1]);
            done != [] ==> Lt(Names(done)[|done| - 1], RecordOf(p, omit, links[|links| - 1]).value.name)
  {
    hide Lt, RecordOf, Siblings, Basename, Records;
    var before := links[..|links| - 1];
    var done := Records(p, omit, before);
    if done != [] {
      RecordsFrom(p, omit, before);
      assert done[|done| - 1] in done;
      var i :| 0 <= i < |before| && RecordOf(p, omit, before[i]) == Some(done[|done| - 1]);
      assert before[i] == links[i];
      NamesApart(p, omit, links, i, |links| - 1);
    }
  }

  lemma RecordFine(p: Primitives, omit: Omit, l: Link)
    requires LinkOk(p, omit, l) && RecordOf(p, omit, l).Some?
    ensures Fine(RecordOf(p, omit, l).value) <==> !Paths.DrivePrefixed(Basename(l.path))
    ensures MetadataCanonical.Canonical(RecordOf(p, omit, l).value.meta)
  {
    hide Fine, Paths.ValidPath, Paths.DrivePrefixed, Restored, BuildRecord, KeepingFor, Where;
    RecordValid(p, l.desired, l.native, omit, l.stored, l.unstored, l.birth, l.path);
  }

  /** The directory's records pass the constructor's checks if and only if no name has a drive prefix. */
  lemma RecordsSorted(p: Primitives, omit: Omit, links: seq<Link>)
    requires Siblings(p, omit, links)
    ensures Sorted(Records(p, omit, links)) <==> NamesCarry(p, omit, links)
    ensures forall r :: r in Records(p, omit, links) ==> MetadataCanonical.Canonical(r.meta)
  {
    hide Fine, RecordOf, LinkOk, Paths.DrivePrefixed, Lt, MetadataCanonical.Canonical;
    var records := Records(p, omit, links);
    RecordsFrom(p, omit, links);
    RecordNamesIncrease(p, omit, links);
    forall i | 0 <= i < |links| && RecordOf(p, omit, links[i]).Some?
      ensures Fine(RecordOf(p, omit, links[i]).value) <==> !Paths.DrivePrefixed(Basename(links[i].path))
      ensures MetadataCanonical.Canonical(RecordOf(p, omit, links[i]).value.meta)
    {
      RecordFine(p, omit, links[i]);
    }
    if NamesCarry(p, omit, links) {
      forall k | 0 <= k < |records| ensures Fine(records[k]) {
        assert records[k] in records;
      }
    }
  }

  /** Each symlink finds its own record, and one without a record finds none. */
  lemma FindsOwn(p: Primitives, omit: Omit, links: seq<Link>, i: nat)
    requires Siblings(p, omit, links) && i < |links|
    ensures Lookup(Records(p, omit, links), Basename(links[i].path)) == RecordOf(p, omit, links[i])
  {
    hide RecordOf, LinkOk, Lt, Basename;
    RecordsFrom(p, omit, links);
    var found := Lookup(Records(p, omit, links), Basename(links[i].path));
    if found.Some? {
      var j :| 0 <= j < |links| && RecordOf(p, omit, links[j]) == Some(found.value);
      LtIrreflexive(Basename(links[i].path));
      if i < j {
        NamesApart(p, omit, links, i, j);
      } else if j < i {
        NamesApart(p, omit, links, j, i);
      }
    }
  }

  /** What reading a symlink gives: the merged record if there is one, or what the file system shows. */
  ghost predicate ReadsAs(native: Metadata, record: Option<Record>, omit: Omit, m: Metadata) {
    match record
    case None => m == native
    case Some(r) =>
      && MetadataNormalize.InputFault(Omitted(Merged(native, r), omit)).None?
      && MetadataNormalize.Normalized(Omitted(Merged(native, r), omit), m)
  }

  /**
   One directory, the whole way round: if no name has a drive prefix and the attribute fits, it
   decodes to the records that were written, and looking up and merging gives every symlink its
   wanted metadata and nothing else.
   */
  lemma DirectoryLaw(p: Primitives, omit: Omit, links: seq<Link>)
    requires Siblings(p, omit, links) && NamesCarry(p, omit, links)
    requires |Attribute(Records(p, omit, links))| <= MAX_BYTES
    ensures Fault(Records(p, omit, links)).None?
    ensures Decode(Attribute(Records(p, omit, links))) == Ok(Records(p, omit, links))
    ensures forall i, m :: 0 <= i < |links| ==>
              (ReadsAs(links[i].native, Lookup(Records(p, omit, links), Basename(links[i].path)), omit, m)
               <==> m == links[i].desired)
  {
    hide Fine, RecordOf, LinkOk, Lt, Basename, Attribute, Decode, Fault, Records, Lookup, MetadataCanonical.Canonical;
    var records := Records(p, omit, links);
    RecordsSorted(p, omit, links);
    CapNeverRejects(records);
    DecodeOfEncode(records);
    forall i, m | 0 <= i < |links|
      ensures ReadsAs(links[i].native, Lookup(records, Basename(links[i].path)), omit, m) <==> m == links[i].desired
    {
      FindsOwn(p, omit, links, i);
      ReadsWanted(p, omit, links[i], m);
    }
  }

  lemma ReadsWanted(p: Primitives, omit: Omit, l: Link, m: Metadata)
    requires LinkOk(p, omit, l)
    ensures ReadsAs(l.native, RecordOf(p, omit, l), omit, m) <==> m == l.desired
  {
    hide Restored, BuildRecord, KeepingFor, Where, Merged, Paths.ValidPath, MetadataNormalize.InputFault,
      MetadataNormalize.Normalized;
    TransportLaw(p, l.desired, l.native, omit, l.stored, l.unstored, l.birth, l.path);
  }
}
