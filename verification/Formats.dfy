/**
 The wire formats read left to right, as docs/directory-format.md and the writers lay them out: one
 flat definition per format, with every number spelled out, and the proof that the encoders write
 exactly that.
 */
module Formats {
  import opened Wire
  import opened Listing
  import opened Holes
  import opened Metadata
  import opened Primitives
  import opened Snapshots
  import opened TreePatch
  import opened TreeBody
  import MetadataCodec
  import FilePatch
  import LinuxAcl
  import PathFilter
  import SymlinkTransport
  import TimeOverrides

  /* ---------- Metadata ---------- */

  function FlatXattrs(xs: seq<Xattr>): (b: bytes) {
    if xs == [] then []
    else
      var x := xs[0];
      [if x.class_ == Logical then 1 else 2] + Le(4, |x.name|) + x.name + Le(4, |x.value|) + x.value
      + FlatXattrs(xs[1..])
  }

  function AceNumber(t: AceTag): (n: byte) {
    if t == Owner then 1 else if t == Group then 2 else if t == Everyone then 3
    else if t == NamedUser then 4 else if t == NamedGroup then 5 else 6
  }

  function FlatAces(xs: seq<Ace>): (b: bytes) {
    if xs == [] then []
    else [AceNumber(xs[0].tag), xs[0].permissions] + Le(4, |xs[0].name|) + xs[0].name + FlatAces(xs[1..])
  }

  function FlatHoles(xs: seq<Hole>): (b: bytes) {
    if xs == [] then [] else Le(8, xs[0].offset) + Le(8, xs[0].length) + FlatHoles(xs[1..])
  }

  function FlatNativeAcl(acl: Option<NativeAcl>): (b: bytes) {
    if acl.None? then [0]
    else
      [if acl.value.origin == Linux then 1 else if acl.value.origin == Macos then 2 else 3]
      + Le(4, |acl.value.body|) + acl.value.body
  }

  /** Signed seconds modulo 2^64, then nanoseconds. */
  function FlatTime(t: Option<Time>): (b: bytes) {
    if t.None? then [] else
    Le(8, (t.value.sec as int + 0x1_0000_0000_0000_0000) % 0x1_0000_0000_0000_0000) + Le(4, t.value.nsec)
  }

  function FlatTimes(t: Times): (b: bytes) {
    [(if t.mtime.Some? then 1 else 0) + (if t.atime.Some? then 2 else 0) + (if t.btime.Some? then 4 else 0)]
    + FlatTime(t.mtime) + FlatTime(t.atime) + FlatTime(t.btime)
  }

  function FlatFinder(flags: u32, info: Option<FinderInfo>): (b: bytes) {
    Le(4, flags) + (if info.None? then [0] else [1] + info.value)
  }

  function FlatHardlink(link: Option<bytes>): (b: bytes) {
    if link.None? then [0] else [1] + Le(4, |link.value|) + link.value
  }

  function FlatMetadata(m: Metadata): (b: bytes) {
    Le(4, |m.xattrs|) + FlatXattrs(m.xattrs) + Le(4, |m.aces|) + FlatAces(m.aces) + FlatNativeAcl(m.nativeAcl)
    + FlatTimes(m.times) + FlatFinder(m.finderFlags, m.finderInfo) + Le(4, |m.holes|) + FlatHoles(m.holes)
    + FlatHardlink(m.hardlinkTo)
  }

  lemma OneByte(b: byte)
    ensures Le(1, b) == [b]
  {
    assert Le(0, b / 256) == [];
  }

  lemma Regroup3(a: bytes, b: bytes, c: bytes)
    ensures a + (b + c) == a + b + c
  {
  }

  lemma Regroup4(a: bytes, b: bytes, c: bytes, d: bytes)
    ensures a + (b + (c + d)) == a + b + c + d
  {
  }

  lemma Regroup6(a: bytes, b: bytes, c: bytes, d: bytes, e: bytes, f: bytes)
    ensures a + (b + (c + (d + (e + f)))) == a + b + c + d + e + f
  {
    Regroup4(c, d, e, f);
    Regroup3(a, b, c + d + e + f);
  }

  lemma {:induction false} XattrsFlat(xs: seq<Xattr>, tail: bytes)
    ensures PutAll(xs, MetadataCodec.PutXattr, tail) == FlatXattrs(xs) + tail
  {
    hide Le;
    if xs != [] {
      var x := xs[0];
      XattrsFlat(xs[1..], tail);
      assert x.class_.Tag() == if x.class_ == Logical then 1 else 2;
      OneByte(x.class_.Tag());
      var rest := FlatXattrs(xs[1..]);
      Regroup6([x.class_.Tag()], Le(4, |x.name|), x.name, Le(4, |x.value|), x.value, rest + tail);
      Regroup3([x.class_.Tag()] + Le(4, |x.name|) + x.name + Le(4, |x.value|) + x.value, rest, tail);
    }
  }

  lemma {:induction false} AcesFlat(xs: seq<Ace>, tail: bytes)
    ensures PutAll(xs, MetadataCodec.PutAce, tail) == FlatAces(xs) + tail
  {
    hide Le;
    if xs != [] {
      var a := xs[0];
      AcesFlat(xs[1..], tail);
      assert a.tag.Tag() == AceNumber(a.tag);
      OneByte(a.tag.Tag());
      OneByte(a.permissions);
      var rest := FlatAces(xs[1..]);
      assert [a.tag.Tag()] + ([a.permissions] + (Le(4, |a.name|) + (a.name + (rest + tail))))
          == [a.tag.Tag(), a.permissions] + (Le(4, |a.name|) + (a.name + (rest + tail)));
      Regroup4([a.tag.Tag(), a.permissions], Le(4, |a.name|), a.name, rest + tail);
      Regroup3([a.tag.Tag(), a.permissions] + Le(4, |a.name|) + a.name, rest, tail);
    }
  }

  lemma {:induction false} HolesFlat(xs: seq<Hole>, tail: bytes)
    ensures PutAll(xs, MetadataCodec.PutHole, tail) == FlatHoles(xs) + tail
  {
    hide Le;
    if xs != [] {
      HolesFlat(xs[1..], tail);
      var rest := FlatHoles(xs[1..]);
      Regroup4(Le(8, xs[0].offset), Le(8, xs[0].length), rest, tail);
      Regroup3(Le(8, xs[0].offset), Le(8, xs[0].length), rest + tail);
    }
  }

  lemma NativeAclFlat(acl: Option<NativeAcl>, tail: bytes)
    ensures MetadataCodec.PutNativeAcl(acl, tail) == FlatNativeAcl(acl) + tail
  {
    hide Le;
    OneByte(0);
    if acl.Some? {
      var n := acl.value.origin.Tag();
      assert n == if acl.value.origin == Linux then 1 else if acl.value.origin == Macos then 2 else 3;
      OneByte(n);
      Regroup4([n], Le(4, |acl.value.body|), acl.value.body, tail);
    }
  }

  lemma TimeFlat(t: Option<Time>, tail: bytes)
    ensures MetadataCodec.PutTime(t, tail) == FlatTime(t) + tail
  {
    hide Le;
    if t.Some? {
      assert MetadataCodec.Unsigned(t.value.sec)
          == (t.value.sec as int + 0x1_0000_0000_0000_0000) % 0x1_0000_0000_0000_0000;
    }
  }

  lemma TimesFlat(t: Times, tail: bytes)
    ensures MetadataCodec.PutTimes(t, tail) == FlatTimes(t) + tail
  {
    hide Le, FlatTime, MetadataCodec.PutTime;
    OneByte(MetadataCodec.TimeFlags(t));
    TimeFlat(t.btime, tail);
    TimeFlat(t.atime, FlatTime(t.btime) + tail);
    TimeFlat(t.mtime, FlatTime(t.atime) + (FlatTime(t.btime) + tail));
    var flags := [MetadataCodec.TimeFlags(t)];
    Regroup4(flags, FlatTime(t.mtime), FlatTime(t.atime), FlatTime(t.btime) + tail);
    Regroup3(flags + FlatTime(t.mtime) + FlatTime(t.atime), FlatTime(t.btime), tail);
  }

  lemma FinderFlat(flags: u32, info: Option<FinderInfo>, tail: bytes)
    ensures MetadataCodec.PutFinder(flags, info, tail) == FlatFinder(flags, info) + tail
  {
    hide Le;
    OneByte(0);
    OneByte(1);
    if info.None? {
      Regroup3(Le(4, flags), [0], tail);
    } else {
      Regroup4(Le(4, flags), [1], info.value, tail);
      Regroup3(Le(4, flags), [1], info.value);
    }
  }

  lemma HardlinkFlat(link: Option<bytes>)
    ensures MetadataCodec.PutHardlink(link, []) == FlatHardlink(link)
  {
    hide Le;
    OneByte(0);
    OneByte(1);
    if link.Some? {
      assert link.value + [] == link.value;
      Regroup3([1], Le(4, |link.value|), link.value);
    }
  }

  /** A metadata record is written field by field as documented. */
  lemma MetadataAsDocumented(m: Metadata)
    ensures MetadataCodec.Encode(m) == FlatMetadata(m)
  {
    hide Le, PutAll, FlatXattrs, FlatAces, FlatHoles, FlatNativeAcl, FlatTimes, FlatFinder, FlatHardlink,
      MetadataCodec.PutNativeAcl, MetadataCodec.PutTimes, MetadataCodec.PutFinder, MetadataCodec.PutHardlink;
    var h := FlatHardlink(m.hardlinkTo);
    HardlinkFlat(m.hardlinkTo);
    HolesFlat(m.holes, h);
    var holes := Le(4, |m.holes|) + (FlatHoles(m.holes) + h);
    FinderFlat(m.finderFlags, m.finderInfo, holes);
    var finder := FlatFinder(m.finderFlags, m.finderInfo) + holes;
    TimesFlat(m.times, finder);
    var times := FlatTimes(m.times) + finder;
    NativeAclFlat(m.nativeAcl, times);
    var native := FlatNativeAcl(m.nativeAcl) + times;
    AcesFlat(m.aces, native);
    var aces := Le(4, |m.aces|) + (FlatAces(m.aces) + native);
    XattrsFlat(m.xattrs, aces);
    Ten(Le(4, |m.xattrs|), FlatXattrs(m.xattrs), Le(4, |m.aces|), FlatAces(m.aces), FlatNativeAcl(m.nativeAcl),
        FlatTimes(m.times), FlatFinder(m.finderFlags, m.finderInfo), Le(4, |m.holes|), FlatHoles(m.holes), h);
  }

  lemma Ten(a: bytes, b: bytes, c: bytes, d: bytes, e: bytes, f: bytes, g: bytes, h: bytes, i: bytes, j: bytes)
    ensures a + (b + (c + (d + (e + (f + (g + (h + (i + j)))))))) == a + b + c + d + e + f + g + h + i + j
  {
    Regroup6(e, f, g, h, i, j);
    Regroup4(a, b, c, d + (e + f + g + h + i + j));
    Regroup3(a + b + c, d, e + f + g + h + i + j);
    Onto(a + b + c + d, e, f, g, h, i, j);
  }

  lemma Onto(x: bytes, e: bytes, f: bytes, g: bytes, h: bytes, i: bytes, j: bytes)
    ensures x + (e + f + g + h + i + j) == x + e + f + g + h + i + j
  {
    Regroup6(e, f, g, h, i, j);
    Regroup6(x + e, f, g, h, i, j);
    Regroup3(x, e, f + (g + (h + (i + j))));
  }

  /* ---------- Tree identity ---------- */

  function FlatDigest(p: Primitives, m: Metadata): (d: Digest) {
    (p.blake3)(Ascii("DIFZMETA") + [1] + FlatMetadata(m))
  }

  function KindNumber(c: Content): (n: byte) { if c.Dir? then 1 else if c.Regular? then 2 else 3 }

  /** Symlinks always have mode 0777. */
  function ModeNumber(c: Content): (n: u16) { if c.Dir? || c.Regular? then c.mode else 511 }

  function ContentBytes(c: Content): (b: bytes) { if c.Dir? then [] else if c.Regular? then c.body else c.target }

  function FlatEntry(p: Primitives, e: Entry): (b: bytes)
    ensures |b| == EntrySize(e)
  {
    [KindNumber(e.content)] + Le(2, ModeNumber(e.content)) + Le(4, |e.path|) + e.path
    + Le(8, |ContentBytes(e.content)|) + ContentBytes(e.content) + FlatDigest(p, e.meta)
  }

  function EntrySize(e: Entry): (n: nat) { 47 + |e.path| + |ContentBytes(e.content)| }

  function FlatEntries(p: Primitives, entries: seq<Entry>): (b: bytes) {
    if entries == [] then [] else FlatEntry(p, entries[0]) + FlatEntries(p, entries[1..])
  }

  /** An empty root adds nothing. */
  function FlatRoot(p: Primitives, root: Metadata): (b: bytes)
    ensures |b| == if root == EMPTY then 0 else 46
  {
    if root == EMPTY then [] else Ascii("DIFZTREE-ROOT") + [1] + FlatDigest(p, root)
  }

  function FlatIdentity(p: Primitives, s: Snapshot): (b: bytes) {
    Ascii("DIFZTREE-ID") + [2] + Le(4, |s.entries|) + FlatEntries(p, s.entries) + FlatRoot(p, s.root)
  }

  lemma DigestFlat(p: Primitives, m: Metadata)
    ensures MetaHash(p, m) == FlatDigest(p, m)
  {
    hide MetadataCodec.Encode, FlatMetadata;
    MetadataAsDocumented(m);
  }

  lemma EntryFlat(p: Primitives, e: Entry, tail: bytes)
    ensures PutIdentity(IdentityOf(p, e), tail) == FlatEntry(p, e) + tail
  {
    hide Le, MetaHash, FlatDigest;
    DigestFlat(p, e.meta);
    OneByte(KindNumber(e.content));
    var d, body := FlatDigest(p, e.meta), ContentBytes(e.content);
    assert e.content.KindTag() == KindNumber(e.content) && e.content.ModeBits() == ModeNumber(e.content);
    assert e.content.Body() == body;
    Regroup4(Le(8, |body|), body, d, tail);
    Regroup4([KindNumber(e.content)], Le(2, ModeNumber(e.content)), Le(4, |e.path|),
             e.path + (Le(8, |body|) + body + d + tail));
    var head := [KindNumber(e.content)] + Le(2, ModeNumber(e.content)) + Le(4, |e.path|);
    Regroup3(head, e.path, Le(8, |body|) + body + d + tail);
    Regroup4(head + e.path, Le(8, |body|), body, d + tail);
    Regroup3(head + e.path + Le(8, |body|) + body, d, tail);
    Regroup4(Le(8, |body|), body, d, tail);
  }

  lemma {:induction false} EntriesFlat(p: Primitives, entries: seq<Entry>, tail: bytes)
    ensures PutAll(Identities(p, entries), PutIdentity, tail) == FlatEntries(p, entries) + tail
  {
    hide PutIdentity, FlatEntry, IdentityOf;
    var ids := Identities(p, entries);
    if entries != [] {
      EntriesFlat(p, entries[1..], tail);
      assert ids[1..] == Identities(p, entries[1..]);
      EntryFlat(p, entries[0], FlatEntries(p, entries[1..]) + tail);
      Regroup3(FlatEntry(p, entries[0]), FlatEntries(p, entries[1..]), tail);
    }
  }

  /** The hasher is fed exactly the documented stream. */
  lemma IdentityAsDocumented(p: Primitives, s: Snapshot)
    ensures IdentityStream(p, s) == FlatIdentity(p, s)
  {
    hide Le, PutAll, FlatEntries, MetaHash, FlatDigest, Identities;
    EmptyIsEmpty(s.root);
    DigestFlat(p, s.root);
    var root := FlatRoot(p, s.root);
    EntriesFlat(p, s.entries, root);
    assert |Identities(p, s.entries)| == |s.entries|;
    Regroup4(Ascii("DIFZTREE-ID") + [2], Le(4, |s.entries|), FlatEntries(p, s.entries), root);
  }

  /** Where entry `i` begins. */
  function EntryOffset(entries: seq<Entry>, i: nat): (n: nat)
    requires i <= |entries|
  {
    if i == 0 then 16 else EntryOffset(entries, i - 1) + EntrySize(entries[i - 1])
  }

  lemma {:induction false} FlatEntriesAt(p: Primitives, entries: seq<Entry>, i: nat)
    requires i <= |entries|
    ensures EntryOffset(entries, i) - 16 <= |FlatEntries(p, entries)|
    ensures EntryOffset(entries, i) >= 16
    ensures FlatEntries(p, entries)[EntryOffset(entries, i) - 16..] == FlatEntries(p, entries[i..])
  {
    hide FlatEntry;
    if i == 0 {
      assert entries[0..] == entries;
    } else {
      FlatEntriesAt(p, entries, i - 1);
      var before := FlatEntries(p, entries[i - 1..]);
      assert entries[i - 1..][1..] == entries[i..];
      assert before == FlatEntry(p, entries[i - 1]) + FlatEntries(p, entries[i..]);
      assert before[EntrySize(entries[i - 1])..] == FlatEntries(p, entries[i..]);
    }
  }

  /** The length of the stream, how it starts and how it ends. */
  lemma StreamLayout(p: Primitives, s: Snapshot)
    ensures EntryOffset(s.entries, |s.entries|) >= 16
    ensures |IdentityStream(p, s)| == EntryOffset(s.entries, |s.entries|) + (if s.root == EMPTY then 0 else 46)
    ensures IdentityStream(p, s)[..11] == Ascii("DIFZTREE-ID") && IdentityStream(p, s)[11] == 2
    ensures IdentityStream(p, s)[12..16] == Le(4, |s.entries|)
    ensures IdentityStream(p, s)[EntryOffset(s.entries, |s.entries|)..] == FlatRoot(p, s.root)
  {
    hide Le, FlatEntries, FlatRoot, IdentityStream, EntryOffset;
    var all, root, n := FlatEntries(p, s.entries), FlatRoot(p, s.root), |s.entries|;
    FlatEntriesAt(p, s.entries, n);
    assert |all| == EntryOffset(s.entries, n) - 16 by { NoEntries(p, s.entries[n..]); }
    IdentityAsDocumented(p, s);
    StreamPieces(Ascii("DIFZTREE-ID"), Le(4, n), all, root);
  }

  lemma StreamPieces(domain: bytes, count: bytes, all: bytes, root: bytes)
    requires |domain| == 11 && |count| == 4
    ensures var b := domain + [2] + count + all + root;
            && |b| == 16 + |all| + |root| && b[..11] == domain && b[11] == 2 && b[12..16] == count
            && b[16..] == all + root && b[16 + |all|..] == root
  {
  }

  /** Entry `i` stands at its summed offset. */
  lemma StreamEntry(p: Primitives, s: Snapshot, i: nat)
    requires i < |s.entries|
    ensures EntryOffset(s.entries, i) + EntrySize(s.entries[i]) <= |IdentityStream(p, s)|
    ensures var at := EntryOffset(s.entries, i);
            IdentityStream(p, s)[at..at + EntrySize(s.entries[i])] == FlatEntry(p, s.entries[i])
  {
    hide Le, FlatEntries, FlatEntry, FlatRoot, IdentityStream, EntryOffset, EntrySize;
    var all, root, at, n := FlatEntries(p, s.entries), FlatRoot(p, s.root),
      EntryOffset(s.entries, i), EntrySize(s.entries[i]);
    FlatEntriesAt(p, s.entries, i);
    FirstOfEntries(p, s.entries[i..]);
    IdentityAsDocumented(p, s);
    StreamPieces(Ascii("DIFZTREE-ID"), Le(4, |s.entries|), all, root);
    var b := IdentityStream(p, s);
    Inside(b, all, root, at, n);
  }

  lemma Inside(b: bytes, all: bytes, root: bytes, at: nat, n: nat)
    requires |b| >= 16 && b[16..] == all + root && at >= 16 && at - 16 + n <= |all|
    ensures at + n <= |b| && b[at..at + n] == all[at - 16..][..n]
  {
    var l, r := b[at..at + n], all[at - 16..][..n];
    forall k | 0 <= k < n ensures l[k] == r[k] {
      assert b[16..][at - 16 + k] == b[at + k];
      assert (all + root)[at - 16 + k] == all[at - 16 + k];
    }
    assert |l| == |r| && l == r;
  }

  lemma NoEntries(p: Primitives, entries: seq<Entry>)
    requires entries == []
    ensures FlatEntries(p, entries) == []
  {
  }

  lemma FirstOfEntries(p: Primitives, entries: seq<Entry>)
    requires entries != []
    ensures |FlatEntries(p, entries)| >= EntrySize(entries[0])
    ensures FlatEntries(p, entries)[..EntrySize(entries[0])] == FlatEntry(p, entries[0])
  {
    hide FlatEntry;
  }

  /** At an entry's offset: kind, mode, path length, path, content length, content, metadata digest. */
  lemma EntryLayout(p: Primitives, e: Entry)
    ensures var b, n, m := FlatEntry(p, e), |e.path|, |ContentBytes(e.content)|;
            && b[0] == KindNumber(e.content) && b[1..3] == Le(2, ModeNumber(e.content)) && b[3..7] == Le(4, n)
            && b[7..7 + n] == e.path && b[7 + n..15 + n] == Le(8, m) && b[15 + n..15 + n + m] == ContentBytes(e.content)
            && b[15 + n + m..] == FlatDigest(p, e.meta)
  {
    hide Le, FlatDigest;
  }

  /* ---------- Patches ---------- */

  function FlatRules(rules: seq<PathFilter.Rule>): (b: bytes) {
    if rules == [] then []
    else
      [if rules[0].action == PathFilter.Include then 1 else 2, 0, 0, 0] + Le(4, |rules[0].pattern|) + rules[0].pattern
      + FlatRules(rules[1..])
  }

  function OperationNumber(o: Operation): (n: byte) {
    if o == Directory then 1 else if o == Symlink then 2 else if o == FileCopy then 3
    else if o == FileRaw then 4 else if o == FileDelta then 5 else 6
  }

  function FlatSized(m: Metadata): (b: bytes) { Le(4, |FlatMetadata(m)|) + FlatMetadata(m) }

  function FlatOps(ops: seq<Op>): (b: bytes) {
    if ops == [] then []
    else
      [OperationNumber(ops[0].operation), 0] + Le(2, ops[0].mode) + Le(4, |ops[0].path|) + Le(8, |ops[0].payload|)
      + ops[0].path + ops[0].payload + FlatSized(ops[0].meta) + FlatOps(ops[1..])
  }

  function FlatBody(rules: seq<PathFilter.Rule>, ops: seq<Op>, root: Metadata): (b: bytes) {
    FlatRules(rules) + FlatOps(ops) + (if root == EMPTY then [] else FlatSized(root))
  }

  /** Bit 0 announces a root record; bits 1 to 6 omit the six families in order. */
  function FlagByte(h: Header): (n: byte) {
    (if h.rootMetadata then 1 else 0)
    + (if XattrFamily in h.omit then 2 else 0) + (if AclFamily in h.omit then 4 else 0)
    + (if TimestampsFamily in h.omit then 8 else 0) + (if FinderFamily in h.omit then 16 else 0)
    + (if SparseFamily in h.omit then 32 else 0) + (if HardlinkFamily in h.omit then 64 else 0)
  }

  function FlatPrefix(h: Header): (b: bytes)
    ensures |b| == 88
  {
    Ascii("DIFZTREE") + [2, 0] + Le(2, h.neededReader) + [FlagByte(h), 0, 0, 0]
    + Le(4, h.ruleCount) + Le(4, h.entryCount)
    + h.sourceHash + h.targetHash
  }

  function FlatPatch(p: Primitives, h: Header, rules: seq<PathFilter.Rule>, ops: seq<Op>, root: Metadata): (b: bytes) {
    var body := FlatBody(rules, ops, root);
    FlatPrefix(h) + (p.blake3)(Ascii("DIFZTREE-PATCH") + [2] + FlatPrefix(h) + body) + body
  }

  lemma SizedFlat(m: Metadata, tail: bytes)
    ensures PutBlob(MetadataCodec.Encode(m), tail) == FlatSized(m) + tail
  {
    hide Le, MetadataCodec.Encode, FlatMetadata;
    MetadataAsDocumented(m);
    Regroup3(Le(4, |FlatMetadata(m)|), FlatMetadata(m), tail);
  }

  lemma RuleFlat(r: PathFilter.Rule, tail: bytes)
    ensures PutRule(r, tail)
         == [if r.action == PathFilter.Include then 1 else 2, 0, 0, 0] + Le(4, |r.pattern|) + r.pattern + tail
  {
    OneByte(0);
    OneByte(ActionTag(r.action));
    ZeroWord(2);
    hide Le;
    var head: bytes := [ActionTag(r.action), 0, 0, 0];
    var named := Le(4, |r.pattern|) + (r.pattern + tail);
    assert Le(2, 0) == [0, 0];
    assert [ActionTag(r.action)] + ([0] + ([0, 0] + named)) == head + named;
    Regroup4(head, Le(4, |r.pattern|), r.pattern, tail);
  }

  lemma {:induction false} RulesFlat(rules: seq<PathFilter.Rule>, tail: bytes)
    ensures PutAll(rules, PutRule, tail) == FlatRules(rules) + tail
  {
    hide Le, PutRule;
    if rules != [] {
      var r, rest := rules[0], FlatRules(rules[1..]);
      RulesFlat(rules[1..], tail);
      RuleFlat(r, rest + tail);
      Regroup3([if r.action == PathFilter.Include then 1 else 2, 0, 0, 0] + Le(4, |r.pattern|) + r.pattern, rest, tail);
    }
  }

  lemma {:induction false} ZeroWord(width: nat)
    ensures |Le(width, 0)| == width && forall i :: 0 <= i < width ==> Le(width, 0)[i] == 0
  {
    if width > 0 {
      ZeroWord(width - 1);
    }
  }

  lemma OpFlat(op: Op, tail: bytes)
    ensures PutOp(op, tail)
         == [OperationNumber(op.operation), 0] + Le(2, op.mode) + Le(4, |op.path|) + Le(8, |op.payload|)
            + op.path + op.payload + FlatSized(op.meta) + tail
  {
    hide Le, FlatSized, MetadataCodec.Encode, PutBlob;
    SizedFlat(op.meta, tail);
    OneByte(0);
    OneByte(op.operation.Tag());
    assert op.operation.Tag() == OperationNumber(op.operation);
    var tag: bytes := [OperationNumber(op.operation), 0];
    var rest := op.path + (op.payload + (FlatSized(op.meta) + tail));
    var sizes := Le(2, op.mode) + (Le(4, |op.path|) + (Le(8, |op.payload|) + rest));
    assert [OperationNumber(op.operation)] + ([0] + sizes) == tag + sizes;
    Regroup4(tag, Le(2, op.mode), Le(4, |op.path|), Le(8, |op.payload|) + rest);
    var head := tag + Le(2, op.mode) + Le(4, |op.path|);
    Regroup4(head, Le(8, |op.payload|), op.path, op.payload + (FlatSized(op.meta) + tail));
    Regroup4(head + Le(8, |op.payload|) + op.path, op.payload, FlatSized(op.meta), tail);
  }

  lemma {:induction false} OpsFlat(ops: seq<Op>, tail: bytes)
    ensures PutAll(ops, PutOp, tail) == FlatOps(ops) + tail
  {
    hide Le, PutOp, FlatSized;
    if ops != [] {
      var op, rest := ops[0], FlatOps(ops[1..]);
      OpsFlat(ops[1..], tail);
      OpFlat(op, rest + tail);
      Regroup3([OperationNumber(op.operation), 0] + Le(2, op.mode) + Le(4, |op.path|) + Le(8, |op.payload|)
               + op.path + op.payload + FlatSized(op.meta), rest, tail);
    }
  }

  lemma BodyFlat(rules: seq<PathFilter.Rule>, ops: seq<Op>, root: Metadata)
    ensures Body(rules, ops, root) == FlatBody(rules, ops, root)
  {
    hide PutAll, FlatRules, FlatOps, FlatSized, MetadataCodec.Encode, PutBlob;
    EmptyIsEmpty(root);
    SizedFlat(root, []);
    assert FlatSized(root) + [] == FlatSized(root);
    var last := if root == EMPTY then [] else FlatSized(root);
    OpsFlat(ops, last);
    RulesFlat(rules, FlatOps(ops) + last);
    Regroup3(FlatRules(rules), FlatOps(ops), last);
  }

  lemma PrefixFlat(h: Header)
    ensures Prefix(h) == FlatPrefix(h)
  {
    PrefixLeftToRight(h);
    assert Le(2, VERSION) == [2, 0] by {
      assert Le(1, 0) == [0];
      assert Le(2, 2) == [2] + Le(1, 0);
    }
    assert Flags(h) == FlagByte(h);
    assert Le(4, Flags(h)) == [FlagByte(h), 0, 0, 0] by {
      ZeroWord(3);
      assert Le(4, Flags(h)) == [Flags(h) % 256] + Le(3, Flags(h) / 256);
    }
    hide Le, Flags, FlagByte;
    assert [] + MAGIC == MAGIC;
  }

  /** A whole patch is laid out as documented, checksum included. */
  lemma PatchAsDocumented(p: Primitives, h: Header, rules: seq<PathFilter.Rule>, ops: seq<Op>, root: Metadata)
    ensures var body := Body(rules, ops, root); EncodeHeader(p, h, body) + body == FlatPatch(p, h, rules, ops, root)
  {
    hide Prefix, FlatPrefix, Body, FlatBody;
    PrefixFlat(h);
    BodyFlat(rules, ops, root);
  }

  /* ---------- The smaller formats ---------- */

  /** A file patch: magic, version, both digests, both lengths, then the frame. */
  lemma FileHeaderAsDocumented(h: FilePatch.Header, frame: bytes)
    ensures FilePatch.EncodeHeader(h, frame)
         == Ascii("ZDIF") + [4] + h.sourceHash + h.targetHash + Le(8, h.sourceLen) + Le(8, h.targetLen) + frame
  {
    hide Le;
    Regroup6(Ascii("ZDIF") + [4], h.sourceHash, h.targetHash, Le(8, h.sourceLen), Le(8, h.targetLen), frame);
  }

  /** An optional time is a presence byte and the time; a modification override appends the observed one. */
  lemma OverridesAsDocumented(t: Option<Time>, m: TimeOverrides.ModificationOverride)
    ensures TimeOverrides.OverrideBytes(t) == if t.None? then [0] else [1] + FlatTime(t)
    ensures TimeOverrides.EncodeModification(m).Ok? ==>
              TimeOverrides.EncodeModification(m).value
              == (if m.original.None? then [0] else [1] + FlatTime(m.original)) + FlatTime(Some(m.observed))
  {
    hide Le, FlatTime;
    TimeBytesFlat(t);
    TimeBytesFlat(m.original);
    TimeBytesFlat(Some(m.observed));
  }

  lemma TimeBytesFlat(t: Option<Time>)
    ensures t.Some? ==> MetadataCodec.TimeBytes(t.value) == FlatTime(t)
  {
    hide Le;
    TimeFlat(t, []);
    if t.Some? {
      assert MetadataCodec.TimeBytes(t.value) + [] == MetadataCodec.TimeBytes(t.value)
          && FlatTime(t) + [] == FlatTime(t);
    }
  }

  function FlatRecords(records: seq<SymlinkTransport.Record>): (b: bytes) {
    if records == [] then []
    else
      var r := records[0];
      Le(4, |r.name|) + Le(4, |FlatMetadata(r.meta)|) + RecordFlags(r)
      + (if r.observedMtime.None? then [0] else [1] + FlatTime(r.observedMtime)) + r.name + FlatMetadata(r.meta)
      + FlatRecords(records[1..])
  }

  /** Bits 0 to 2 mark absent times, bit 3 overrides the ACL family and bit 4 the Finder family. */
  function RecordFlags(r: SymlinkTransport.Record): (b: bytes) {
    Le(1, r.absentTimes + (if r.aclOverride then 8 else 0) + (if r.finderOverride then 16 else 0))
  }

  lemma RecordFlat(r: SymlinkTransport.Record, tail: bytes)
    ensures SymlinkTransport.PutRecord(r, tail)
         == Le(4, |r.name|) + Le(4, |FlatMetadata(r.meta)|) + RecordFlags(r)
            + (if r.observedMtime.None? then [0] else [1] + FlatTime(r.observedMtime))
            + r.name + FlatMetadata(r.meta) + tail
  {
    hide Le, FlatMetadata, MetadataCodec.Encode, FlatTime;
    MetadataAsDocumented(r.meta);
    TimeBytesFlat(r.observedMtime);
    var blob := FlatMetadata(r.meta);
    var observed := if r.observedMtime.None? then [0] else [1] + FlatTime(r.observedMtime);
    assert observed == TimeOverrides.OverrideBytes(r.observedMtime);
    Regroup4(Le(4, |r.name|), Le(4, |blob|), RecordFlags(r), observed + (r.name + (blob + tail)));
    var head := Le(4, |r.name|) + Le(4, |blob|) + RecordFlags(r);
    Regroup4(head, observed, r.name, blob + tail);
    Regroup3(head + observed + r.name, blob, tail);
  }

  lemma {:induction false} RecordsFlat(records: seq<SymlinkTransport.Record>)
    ensures PutAll(records, SymlinkTransport.PutRecord, []) == FlatRecords(records)
  {
    hide Le, SymlinkTransport.PutRecord, FlatMetadata, RecordFlags, FlatTime;
    if records != [] {
      RecordsFlat(records[1..]);
      RecordFlat(records[0], FlatRecords(records[1..]));
    }
  }

  /** The symlink attribute, record by record. */
  lemma TransportAsDocumented(records: seq<SymlinkTransport.Record>)
    ensures SymlinkTransport.Attribute(records) == Ascii("DIFZLINK") + [1] + Le(4, |records|) + FlatRecords(records)
  {
    hide Le, FlatRecords, PutAll;
    RecordsFlat(records);
    Regroup3(Ascii("DIFZLINK") + [1], Le(4, |records|), FlatRecords(records));
  }

  /** The ACL container: two lengths, then the access list and the default list. */
  lemma ContainerAsDocumented(c: LinuxAcl.Container)
    requires LinuxAcl.Seal(c).Ok?
    ensures LinuxAcl.Seal(c).value
         == Ascii("DIFZACL") + [1] + Le(4, |c.access|) + Le(4, |c.default_|) + c.access + c.default_
  {
    hide Le;
    Regroup6([], Ascii("DIFZACL") + [1], Le(4, |c.access|), Le(4, |c.default_|), c.access, c.default_);
  }
}
