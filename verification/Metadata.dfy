/**
 Portable metadata records, their name grammars and omission masks
 (rust/src/metadata.rs, rust/src/metadata_record.rs, rust/src/metadata_borrow.rs).
 */
module Metadata {
  import opened Wire
  import opened ByteOrder
  import opened Holes
  import Paths
  import Utf8

  const NSEC_LIMIT: nat := 1_000_000_000

  datatype MetaError =
    | InvalidOmitMask | EmptyFamily | UnknownFamily | DuplicateFamily | InvalidNsec | BadMetadata
    | EmptyName | InvalidLogicalName | ReservedTransportName | InvalidRawName | InvalidHardlink
    | InvalidAceName | DuplicateXattr | DuplicateAce | EmptyNativeAcl | ZeroLengthHole
    | HoleOverflow | TruncatedMetadata | TrailingMetadata

  /* ---------- Wire enumerations ---------- */

  datatype Os = Linux | Macos | Mswin {
    function Tag(): (t: byte) ensures 1 <= t <= 3 { match this case Linux => 1 case Macos => 2 case Mswin => 3 }
  }

  datatype XattrClass = Logical | Raw {
    function Tag(): (t: byte) ensures 1 <= t <= 2 { match this case Logical => 1 case Raw => 2 }
  }

  datatype AceTag = Owner | Group | Everyone | NamedUser | NamedGroup | Mask {
    function Tag(): (t: byte) ensures 1 <= t <= 6
    {
      match this
      case Owner => 1
      case Group => 2
      case Everyone => 3
      case NamedUser => 4
      case NamedGroup => 5
      case Mask => 6
    }
  }

  function OsFromTag(t: nat): (r: Option<Os>)
    ensures forall o: Os :: r == Some(o) <==> t == o.Tag()
  {
    if t == 1 then Some(Linux) else if t == 2 then Some(Macos) else if t == 3 then Some(Mswin) else None
  }

  function ClassFromTag(t: nat): (r: Option<XattrClass>)
    ensures forall c: XattrClass :: r == Some(c) <==> t == c.Tag()
  {
    if t == 1 then Some(Logical) else if t == 2 then Some(Raw) else None
  }

  function AceTagFromTag(t: nat): (r: Option<AceTag>)
    ensures forall a: AceTag :: r == Some(a) <==> t == a.Tag()
  {
    if t == 1 then Some(Owner) else if t == 2 then Some(Group) else if t == 3 then Some(Everyone)
    else if t == 4 then Some(NamedUser) else if t == 5 then Some(NamedGroup) else if t == 6 then Some(Mask)
    else None
  }

  /* ---------- Records ---------- */

  /** Read = 1, write = 2, execute = 4. */
  type Permissions = n: nat | n < 8
  type FinderInfo = b: bytes | |b| == 32 witness seq(32, _ => 0)

  datatype Xattr = Xattr(class_: XattrClass, name: bytes, value: bytes)
  datatype Ace = Ace(tag: AceTag, permissions: Permissions, name: bytes)
  datatype NativeAcl = NativeAcl(origin: Os, body: bytes)
  datatype Time = Time(sec: i64, nsec: u32)
  datatype Times = Times(mtime: Option<Time>, atime: Option<Time>, btime: Option<Time>)

  datatype Metadata = Metadata(
    xattrs: seq<Xattr>,
    aces: seq<Ace>,
    nativeAcl: Option<NativeAcl>,
    times: Times,
    finderFlags: u32,
    finderInfo: Option<FinderInfo>,
    holes: seq<Hole>,
    hardlinkTo: Option<bytes>)
  {
    predicate IsEmpty() {
      && xattrs == [] && aces == [] && nativeAcl.None? && times == NO_TIMES
      && finderFlags == 0 && finderInfo.None? && holes == [] && hardlinkTo.None?
    }
  }

  const NO_TIMES: Times := Times(None, None, None)
  const EMPTY: Metadata := Metadata([], [], None, NO_TIMES, 0, None, [], None)

  /* ---------- Name grammars ---------- */

  /** ASCII text as bytes. */
  function Ascii(s: string): (b: bytes)
    ensures |b| == |s|
  {
    seq(|s|, i requires 0 <= i < |s| => (s[i] as int) % 256)
  }

  const TRANSPORT_NAMES: seq<bytes> := [
    Ascii("difz.btime"), Ascii("difz.mtime"), Ascii("difz.finder-info"), Ascii("difz.bsd-flags"),
    Ascii("difz.native-acl"), Ascii("difz.portable-acl"), Ascii("difz.sparse-holes"),
    Ascii("difz.hardlink-to"), Ascii("difz.raw-xattrs"), Ascii("difz.symlinks")]

  const FORBIDDEN: bytes := Ascii("/\\:*?\"<>|")

  predicate IsTransportName(name: bytes) {
    var user := Ascii("user.");
    (if user <= name then name[|user|..] else name) in TRANSPORT_NAMES
  }

  function Lower(s: bytes): (r: bytes)
    ensures |r| == |s|
  {
    seq(|s|, i requires 0 <= i < |s| => if 0x41 <= s[i] <= 0x5a then s[i] + 32 else s[i])
  }

  predicate StartsWithIgnoringCase(name: bytes, prefix: bytes) {
    |prefix| <= |name| && Lower(name[..|prefix|]) == Lower(prefix)
  }

  predicate LogicalNameOk(name: bytes) {
    && 0 < |name| <= 127
    && (forall b :: b in name ==> b >= 0x20 && b != 0x7f && b !in FORBIDDEN)
    && Utf8.Valid(name)
    && name[0] != 0x20
    && name[|name| - 1] != 0x20 && name[|name| - 1] != 0x2e
    && !StartsWithIgnoringCase(name, Ascii("user."))
    && !StartsWithIgnoringCase(name, Ascii("com.apple."))
    && !StartsWithIgnoringCase(name, Ascii("$"))
    && Lower(name) != Ascii("zone.identifier")
  }

  function XattrNameFault(class_: XattrClass, name: bytes): (fault: Option<MetaError>)
    ensures fault.None? ==> 0 < |name| <= 255
  {
    if IsTransportName(name) then Some(ReservedTransportName)
    else if name == [] then Some(EmptyName)
    else match class_
      case Logical => if LogicalNameOk(name) then None else Some(InvalidLogicalName)
      case Raw =>
        if |name| > 255 || 0 in name || Paths.SLASH in name || Paths.BACKSLASH in name
        then Some(InvalidRawName) else None
  }

  predicate HardlinkOk(path: bytes) {
    && 0 < |path| <= 4096
    && Utf8.Valid(path)
    && path[0] != Paths.SLASH
    && Paths.BACKSLASH !in path
    && 0 !in path
    && !Paths.DrivePrefixed(path)
    && (forall part :: part in Paths.Split(path) ==> !Paths.BadComponent(part))
  }

  /** The reference grammar is the entry-path grammar. */
  lemma HardlinkIsPath(path: bytes)
    ensures HardlinkOk(path) <==> Paths.ValidPath(path)
  {
  }

  predicate AceNameOk(tag: AceTag, name: bytes) {
    if tag.NamedUser? || tag.NamedGroup? then
      name != [] && Utf8.Valid(name) && Paths.SLASH !in name && 0 !in name
    else name == []
  }

  /* ---------- Key orders ---------- */

  predicate XattrLt(a: Xattr, b: Xattr) {
    a.class_.Tag() < b.class_.Tag() || (a.class_ == b.class_ && Lt(a.name, b.name))
  }

  predicate AceLt(a: Ace, b: Ace) {
    a.tag.Tag() < b.tag.Tag() || (a.tag == b.tag && Lt(a.name, b.name))
  }

  /* ---------- Families and omission masks ---------- */

  datatype Family = XattrFamily | AclFamily | TimestampsFamily | FinderFamily | SparseFamily | HardlinkFamily

  const FAMILIES: seq<Family> :=
    [XattrFamily, AclFamily, TimestampsFamily, FinderFamily, SparseFamily, HardlinkFamily]

  const ALL_FAMILIES: set<Family> :=
    {XattrFamily, AclFamily, TimestampsFamily, FinderFamily, SparseFamily, HardlinkFamily}

  lemma EveryFamily(f: Family)
    ensures f in ALL_FAMILIES
  {
    match f
    case XattrFamily =>
    case AclFamily =>
    case TimestampsFamily =>
    case FinderFamily =>
    case SparseFamily =>
    case HardlinkFamily =>
  }

  /** A valid mask is a set of families; `Bits` and `OmitFromBits` give its wire form. */
  type Omit = set<Family>

  function Bit(omit: Omit, family: Family, weight: nat): (n: nat)
  {
    if family in omit then weight else 0
  }

  function Bits(omit: Omit): (n: nat)
    ensures n < 64
  {
    Bit(omit, XattrFamily, 1) + Bit(omit, AclFamily, 2) + Bit(omit, TimestampsFamily, 4)
    + Bit(omit, FinderFamily, 8) + Bit(omit, SparseFamily, 16) + Bit(omit, HardlinkFamily, 32)
  }

  function One(bit: nat, family: Family): Omit {
    if bit % 2 == 1 then {family} else {}
  }

  function OmitFromBits(bits: nat): (r: Result<Omit, MetaError>)
    ensures r.Ok? <==> bits < 64
  {
    if bits >= 64 then Err(InvalidOmitMask)
    else
      Ok(One(bits, XattrFamily) + One(bits / 2, AclFamily) + One(bits / 4, TimestampsFamily)
         + One(bits / 8, FinderFamily) + One(bits / 16, SparseFamily) + One(bits / 32, HardlinkFamily))
  }

  /** Masks survive their wire form, and no two masks share one. */
  lemma OmitOfBits(omit: Omit)
    ensures OmitFromBits(Bits(omit)) == Ok(omit)
  {
    var n := Bits(omit);
    assert n % 2 == Bit(omit, XattrFamily, 1);
    assert n / 2 % 2 == Bit(omit, AclFamily, 1);
    assert n / 4 % 2 == Bit(omit, TimestampsFamily, 1);
    assert n / 8 % 2 == Bit(omit, FinderFamily, 1);
    assert n / 16 % 2 == Bit(omit, SparseFamily, 1);
    assert n / 32 % 2 == Bit(omit, HardlinkFamily, 1);
    var back := OmitFromBits(n).value;
    assert forall f: Family :: f in back <==> f in omit by {
      forall f: Family ensures f in back <==> f in omit {
        EveryFamily(f);
      }
    }
    assert back == omit;
  }

  /** Only the families in `kept` survive. */
  function Keep(m: Metadata, kept: set<Family>): (r: Metadata)
  {
    Metadata(
      if XattrFamily in kept then m.xattrs else [],
      if AclFamily in kept then m.aces else [],
      if AclFamily in kept then m.nativeAcl else None,
      if TimestampsFamily in kept then m.times else NO_TIMES,
      if FinderFamily in kept then m.finderFlags else 0,
      if FinderFamily in kept then m.finderInfo else None,
      if SparseFamily in kept then m.holes else [],
      if HardlinkFamily in kept then m.hardlinkTo else None)
  }

  function Complement(omit: Omit): (kept: set<Family>)
    ensures forall f: Family :: f in kept <==> f !in omit
  {
    assert forall f: Family :: f in ALL_FAMILIES by {
      forall f: Family ensures f in ALL_FAMILIES { EveryFamily(f); }
    }
    ALL_FAMILIES - omit
  }

  function Omitted(m: Metadata, omit: Omit): (r: Metadata)
  {
    Keep(m, Complement(omit))
  }

  /** Omitting twice omits the union. */
  lemma OmittedUnion(m: Metadata, a: Omit, b: Omit)
    ensures Omitted(Omitted(m, a), b) == Omitted(m, a + b)
  {
  }

  lemma OmittedNothing(m: Metadata)
    ensures Omitted(m, {}) == m
  {
  }

  /** What each bit of the wire mask takes away; with the union law this says what every mask does. */
  lemma OmittedByBit(m: Metadata)
    ensures Omitted(m, OmitFromBits(1).value) == m.(xattrs := [])
    ensures Omitted(m, OmitFromBits(2).value) == m.(aces := [], nativeAcl := None)
    ensures Omitted(m, OmitFromBits(4).value) == m.(times := Times(None, None, None))
    ensures Omitted(m, OmitFromBits(8).value) == m.(finderFlags := 0, finderInfo := None)
    ensures Omitted(m, OmitFromBits(16).value) == m.(holes := [])
    ensures Omitted(m, OmitFromBits(32).value) == m.(hardlinkTo := None)
  {
  }

  /** Bits combine as sets do. */
  lemma {:induction false} BitsCombine(omit: Omit, family: Family)
    requires family !in omit
    ensures Bits(omit + {family}) == Bits(omit) + Bits({family})
  {
  }

  /** The decoder's test for a record that carries an omitted family. */
  predicate HasOmitted(m: Metadata, omit: Omit) {
    || (XattrFamily in omit && m.xattrs != [])
    || (AclFamily in omit && (m.aces != [] || m.nativeAcl.Some?))
    || (TimestampsFamily in omit && (m.times.mtime.Some? || m.times.atime.Some? || m.times.btime.Some?))
    || (FinderFamily in omit && (m.finderFlags != 0 || m.finderInfo.Some?))
    || (SparseFamily in omit && m.holes != [])
    || (HardlinkFamily in omit && m.hardlinkTo.Some?)
  }

  /** It accepts exactly the records that omission leaves alone. */
  lemma HasOmittedMeans(m: Metadata, omit: Omit)
    ensures !HasOmitted(m, omit) <==> Omitted(m, omit) == m
  {
  }
}
