# difz directory patches: a verified model

difz turns two directory trees into one canonical binary patch (DIFZTREE v2) and turns the source
tree and that patch back into the target tree. This project models that machinery and proves what
it is for, over every input and every run:

* **Apply undoes create.** For all canonical snapshots, rules and omission masks, whatever `create`
  returns, `apply` turns back into the projected target, or reports the output budget exactly when
  the target's total content exceeds it (`TreeRoundTrip`, built on `TreeBody`, `TreeEncode`,
  `TreeDecode`, `TreeApply`).
* **The code that runs is that function.** `create`, `decode` and `apply` are also written the way
  the program runs them, with a bounded writer, a moving reader, in-place arrays, loops and early
  returns, and each is proved equal to its pure form, error for error (`TreeWriter`, `TreeReader`,
  `TreeReplay`, `MetadataStream`).
* **Wire formats are bijections, and the documented ones.** Metadata records, patches, headers, ACL
  containers, symlink transport and time overrides decode what they encode and re-encode what they
  accept, and what they write is byte for byte the documented layout.
* **Canonical forms are unique.** Normalized metadata, merged holes and validated trees do not
  depend on input order or on what an unstable sort does with ties.
* **The glob matcher is right.** The two-row dynamic program agrees with a declarative split of the
  path into one piece per token, and the class-scan shortcut never changes the compiled tokens.
  Every pattern can be read as tokens in exactly one way, and that is how it is compiled.
* **Filesystem adapters keep their promises.** Hardlink rebasing after filtering, the symlink
  transport law for one link and for a whole directory, exact sparse complements under any paging,
  ACL conversion through two sort orders, and staged publication as a step system over one file
  system, with failures and other processes.

## How it is arranged

| files | what they hold |
|---|---|
| `Wire`, `Listing`, `ReadCursor`, `WriteBuffer` | bytes, words, list codecs, the reader and the bounded writer |
| `ByteOrder`, `Utf8`, `Paths`, `Structure` | path order, text, symlink containment, tree shape |
| `Sorting`, `Holes` | unstable sorting, the in-place hole merge |
| `Metadata`, `MetadataCanonical`, `MetadataNormalize`, `MetadataCodec`, `MetadataStream`, `TimeOverrides` | metadata records, their canonical form and wire formats |
| `Primitives`, `Snapshots`, `FilePatch` | BLAKE3 and zstd as parameters, snapshots and their identity, single-file patches |
| `PathFilter`, `GlobSyntax` | the glob compiler, the matcher and ordered rules; what every pattern means |
| `TreePatch`, `TreeBody`, `TreeEncode`, `TreeDecode`, `TreeApply`, `TreeRoundTrip` | the patch format and the main theorem |
| `TreeWriter`, `TreeReader`, `TreeReplay` | create, decode and apply as they run |
| `Formats` | every wire format as one flat layout, and the proof that the encoders write it |
| `Decimals`, `LinuxAcl` | Linux ACL conversion |
| `SymlinkTransport`, `SymlinkMerge`, `SymlinkParent` | symlink metadata that the file system cannot hold: the attribute, one link, all links of a directory |
| `Selection`, `HardlinkRebase`, `SparseCapture` | filtering, hardlink groups, holes |
| `FileSystem`, `Publish`, `PublishPatch` | one file system, the publication steps over it, and the steps for one patch |

Encoders are in continuation style, `PutX(x, tail)`, so that parsing undoes writing without
re-associating concatenations. A function named `Fault` gives the first error a checking loop
reports; the lemma `FaultMeans` beside it says which inputs have none. Integers are unbounded except
where a type such as `u16`, `u32`, `u64` or `i64` says otherwise.

BLAKE3 and the zstd prefix codec are function-valued fields of a `Primitives` value. The law that a
frame decodes to its target (`CodecLaw`) and the absence of digest collisions among the records at
hand (`NoCollision`, `Distinguished`, `TreesDistinguished`) are explicit hypotheses of the lemmas that need them.

## What turned out not to hold

* Applying a patch does not always leave the source alone. The source and the output's parent are
  opened independently and nothing keeps them apart. `Publish.SourceKept` proves, for every step of
  every run, that the call leaves the source unchanged if and only if the output's parent is not the
  source or beneath it (or the step does not touch the disk at all); `Publish.SourceIntact` says the
  same of every state. `PublishPatch.OutputInsideSource` gives the input: source `A`, output `A/out`.
* The writer's symlink record does not always pass transport validation. Entry paths are checked for
  a drive prefix only at their start, but a record carries the basename alone, which is checked as a
  path of its own. `SymlinkMerge.RecordValid` proves that the record is valid if and only if the
  basename has no drive prefix; `SymlinkMerge.DrivePrefixedRecord` gives a whole input, the symlink
  `d/C:x`, whose record is built and refused.
* Portable entries of an accepted ACL normalize if and only if there are fewer than 2^32 of them
  (`LinuxAcl.NormalizedRoundTrip`); the ACL check itself has no such bound, and
  `LinuxAcl.TooManyEntries` gives an accepted byte string that exceeds it.

## Where the documentation says something else

docs/directory-format.md:50-52 lets `**` and `**/` cross separators without a limit. The code stops
both at a newline, which a path may contain; `GlobSyntax.StarMeans` and `GlobSyntax.TreePrefixMeans`
state exactly what they cover. docs/directory-format.md:151 says that the source remains unchanged;
see above for when it does.

## Model

| member | source | states |
|---|---|---|
| `TreeRoundTrip.ApplyUndoesCreate` | rust/src/tree_patch_apply.rs:22-158 | applying a created patch to its source gives exactly the projected target, or `LimitExceeded` exactly when the total content exceeds the output budget, for every snapshot pair, rule list, mask and limits no tighter than the defaults |
| `TreeRoundTrip.HypothesesMet` | rust/src/tree_patch_encode.rs:18-124 | the hypotheses of the theorem can be met: a codec that stores targets whole satisfies the codec law, and the empty trees make a patch |
| `TreeRoundTrip.OnlyTheTarget` | rust/src/tree_patch_apply.rs:130-135 | a created patch applied to any source whatever gives the projected target if it applies at all, when digests do not collide |
| `TreeRoundTrip.DecodeOfCreate` | rust/src/tree_patch_decode.rs:128-254 | a created patch parses to the header, rules, operations, modes, paths, payloads, metadata and root that were written, with nothing left over |
| `TreeRoundTrip.Replay` | rust/src/tree_patch_apply.rs:47-129 | from any point of the loop on, the remaining operations rebuild the remaining entries, or the first overrun of the budget is reported |
| `TreeRoundTrip.ReplayFile` | rust/src/tree_patch_apply.rs:69-92 | each of the three ways a plain file travels gives its bytes back, or stops at the budget |
| `TreeRoundTrip.DeltaOfEncode` | rust/src/tree_patch_apply.rs:143-159 | a delta made from a source expands to its target within the budget and reports the budget otherwise |
| `TreeRoundTrip.CreatedIsEncodable` | rust/src/tree_patch_encode.rs:18-124 | everything the decoder asks of a patch holds of what `create` writes |
| `TreeEncode.AllLayout` | rust/src/tree_patch_encode.rs:48-120 | a successful write is the blank header slot followed by the body of the chosen operations, within every default limit |
| `TreeEncode.FileOperations` | rust/src/tree_patch_encode.rs:83-105 | a plain file is copied exactly when the source has a plain file with the same bytes at its path, sent as a delta exactly when it has one with other bytes, and sent whole exactly when it has none; with the payload of each |
| `TreeEncode.OtherOperations` | rust/src/tree_patch_encode.rs:75-85 | directories, symlinks and hardlinks get their own operation and nothing else does, with path, mode, metadata and payload taken from the entry |
| `TreeEncode.ChooseAccepts` | rust/src/tree_patch_encode.rs:77-109 | selection fails exactly on a symlink target over 65,536 bytes, a payload over 8 GiB or a delta that cannot be made |
| `TreeEncode.CreateAccepts` | rust/src/tree_patch_encode.rs:18-124 | a patch is made exactly when the rules are few, short and compile, and operations, metadata and the whole file stay within the default limits |
| `TreeApply.ApplySound` | rust/src/tree_patch_apply.rs:130-135 | whatever patch it is given, a successful apply returns a canonical snapshot with the promised target identity, from a source with the promised source identity |
| `TreeApply.ApplyOpsPrefix` | rust/src/tree_patch_apply.rs:47-129 | the interpreter only appends: one entry per operation, with its path and metadata, each within the budget |
| `TreeApply.PlainOperations` | rust/src/tree_patch_apply.rs:60-75 | directories, symlinks and whole files become what the operation says, and a mode above 0777 is refused |
| `TreeApply.SourceOperations` | rust/src/tree_patch_apply.rs:76-92 | copies and deltas use the plain file at the same path of the source; a missing one and one of another kind are told apart |
| `TreeApply.LinkOperations` | rust/src/tree_patch_apply.rs:93-107 | a hardlink takes the bytes of the earlier plain file it names, and only of one that is not a hardlink itself |
| `TreeApply.DeltaPrecedence` | rust/src/tree_patch_apply.rs:143-159 | against unlimited decompression: over budget, only the errors that come before the caller's limit are reported instead of it |
| `TreeApply.BudgetConserved` | rust/src/tree_patch_apply.rs:47-129 | what is left of the budget and what has been rebuilt always add up to the same sum |
| `TreeApply.OutputBounded` | rust/src/tree_patch_apply.rs:47-129 | no successful apply exceeds the output budget, whatever the patch |
| `TreeApply.WrongIdentityRefused` | rust/src/tree_patch_apply.rs:37-134 | a source, or a rebuilt tree, with another identity than the header's is refused as such |
| `TreeDecode.DecodeOfEncode` | rust/src/tree_patch_decode.rs:128-254 | any header, rules, operations and root the decoder would accept survive encoding |
| `TreeDecode.EncodeOfDecode` | rust/src/tree_patch_decode.rs:128-254 | an accepted patch has one spelling: its bytes are the encoding of what it parsed to, with canonical metadata |
| `TreeDecode.CountsFit` | rust/src/tree_patch.rs:122-133 | nine bytes per rule and forty-one per entry never exceed a real body |
| `TreeDecode.DecodeAccepts` | rust/src/tree_patch_decode.rs:128-254 | a byte string is accepted exactly when it is the layout of a header, rules, operations and root that meet every condition of the format |
| `TreeDecode.OpFaultMeans` | rust/src/tree_patch_decode.rs:185-212 | an entry is accepted exactly when its payload suits its operation, its reference suits its kind and no omitted family is there |
| `TreePatch.DecodeOfEncodeHeader` | rust/src/tree_patch.rs:60-147 | an envelope whose counts the body can hold opens again to the same header and body |
| `TreePatch.EncodeOfDecodePrefix` | rust/src/tree_patch.rs:88-147 | an accepted envelope is exactly the encoding of its header for its body, checksum and flag bits included |
| `TreePatch.EncodeHeaderInPlace` | rust/src/tree_patch.rs:60-86 | filling the fixed slot field by field gives the encoded header |
| `TreePatch.AnyChangeIsNoticed` | rust/src/tree_patch.rs:88-147 | changing any byte behind the version, with the checksum kept, is refused as a wrong checksum unless digests collide |
| `TreeWriter.CreatePatch` | rust/src/tree_patch_encode.rs:18-124 | the running `create` equals the pure encoder, error for error and byte for byte; which operation each entry gets is `TreeEncode.FileOperations` and `TreeEncode.OtherOperations`, which bytes follow is `Formats.PatchAsDocumented` |
| `TreeWriter.ChooseOp` | rust/src/tree_patch_encode.rs:75-109 | operation selection by binary search equals selection by scanning, which `TreeEncode.FileOperations` characterises |
| `TreeWriter.WriteEntries` | rust/src/tree_patch_encode.rs:69-117 | the entry loop leaves exactly the specified bytes, or the specified first error |
| `TreeWriter.WriteRuleList` | rust/src/tree_patch_encode.rs:53-68 | the rule loop leaves exactly the specified bytes, or the limit error |
| `TreeWriter.WriteRecord` | rust/src/tree_patch_encode.rs:184-192 | metadata is appended behind its length exactly when it fits |
| `TreeWriter.PutInTwo` | rust/src/tree_patch_encode.rs:169-183 | splitting a chunk changes neither what is written nor whether it fits |
| `TreeWriter.Masked` | rust/src/tree_patch_encode.rs:27-33 | skipping projection for an empty mask is the same as projecting, and the result is canonical |
| `TreeReader.DecodePatch` | rust/src/tree_patch_decode.rs:128-254 | the running decoder equals the pure parser, error for error |
| `TreeReader.ReadOp` | rust/src/tree_patch_decode.rs:170-219 | reading one entry consumes exactly its bytes or reports the parser's error |
| `TreeReader.ReadRule` | rust/src/tree_patch_decode.rs:145-161 | reading one rule consumes exactly its bytes or reports the parser's error |
| `TreeReader.ReadRoot` | rust/src/tree_patch_decode.rs:221-243 | the root record is read and refused as the grammar says |
| `TreeReplay.ApplyPatch` | rust/src/tree_patch_apply.rs:22-135 | the running `apply` equals the pure interpreter, error for error and entry for entry |
| `TreeReplay.ApplyEntries` | rust/src/tree_patch_apply.rs:47-129 | pushing entries while the budget goes down gives the specified entries or first error |
| `TreeReplay.FindLinked` | rust/src/tree_patch_apply.rs:93-107 | binary search in the partial result finds the same file as scanning it |
| `Snapshots.FaultMeans` | rust/src/directory_canonical.rs:12-68 | a snapshot is accepted exactly when the tree is well formed, every hole lies in zero bytes of a file, every hardlink names an earlier equal plain file, and the root carries neither |
| `Snapshots.AcceptedMeans` | docs/directory-format.md:23-40 | acceptance in terms of the entries alone: at most a million, paths increasing, every ancestor an earlier directory, holes over zero bytes, hardlinks to an earlier file with the same content and the same record |
| `Snapshots.HardlinkMeans` | rust/src/directory_canonical.rs:38-59 | a hardlink is accepted exactly when an earlier entry at the path it names is the same plain file and its record is the hardlink's with the reference taken out |
| `Snapshots.RefusedMeans` | rust/src/directory_canonical.rs:12-68 | a refusal names a defect the snapshot has, the tree's own errors coming first |
| `Snapshots.New` | rust/src/directory_canonical.rs:12-68 | the checking loops report exactly the specified first error |
| `Snapshots.ProjectCanonical` | rust/src/tree_patch_encode.rs:126-162 | projecting a canonical snapshot always gives a canonical snapshot |
| `Snapshots.ProjectUnion` | rust/src/tree_patch_encode.rs:126-162 | projecting by one mask and then another projects by their union, and by none changes nothing |
| `Snapshots.ProjectSnapshot` | rust/src/tree_patch_encode.rs:126-162 | the projecting loop never fails on a canonical snapshot and gives the projection |
| `Snapshots.IdentityUnambiguous` | rust/src/directory_canonical.rs:75-99 | canonical snapshots that feed the same bytes to the hasher are equal, if their metadata digests do not collide |
| `Snapshots.HashStream` | rust/src/directory_canonical.rs:75-99 | the hashing loop feeds exactly the identity stream, which `Formats.StreamLayout` and `Formats.StreamEntry` lay out byte by byte |
| `Formats.IdentityAsDocumented` | docs/directory-format.md:60-78 | the hasher is fed exactly the documented stream, an empty root adding nothing |
| `Formats.StreamLayout` | rust/src/directory_canonical.rs:75-99 | the stream has 16 bytes, then 47 and the path and content of each entry, then 46 bytes exactly when the root is not empty; domain, version and count stand in front |
| `Formats.StreamEntry` | rust/src/directory_canonical.rs:75-99 | every entry stands at its summed offset |
| `Formats.EntryLayout` | docs/directory-format.md:67-74 | kind, mode, path length, path, content length, content and metadata digest at their offsets |
| `Formats.MetadataAsDocumented` | rust/src/metadata_canonical.rs:160-235 | a metadata record is written field by field in the documented order, with the documented numbers |
| `Formats.PatchAsDocumented` | docs/directory-format.md:82-139 | a patch is the documented header, rules, entries and root, with the checksum over domain, prefix and body |
| `Formats.FileHeaderAsDocumented` | rust/src/lib.rs:39-86 | a ZDIF v4 file patch is magic, two digests, two lengths and the frame |
| `Formats.OverridesAsDocumented` | docs/directory-format.md:149 | time attributes are a presence byte and the time, followed for modification times by the observed time |
| `Formats.TransportAsDocumented` | docs/directory-format.md:147 | the symlink attribute is its magic, the count and the records with their flag bits |
| `Formats.ContainerAsDocumented` | rust/src/linux_acl.rs:177-197 | the ACL container is its magic, two lengths and two lists |
| `Structure.FaultMeans` | rust/src/directory_structure.rs:46-93 | a list is accepted exactly when shapes are right, paths increase across all pairs, and every proper ancestor of every path is an earlier directory |
| `Structure.Validate` | rust/src/directory_structure.rs:46-93 | the loop with parents found by binary search in the growing prefix reports exactly the specified first error |
| `Structure.FaultSame` | rust/src/directory_structure.rs:46-93 | the bytes of files do not matter to the structure, which is why undecoded payloads can be checked |
| `Structure.RefusedMeans` | rust/src/directory_structure.rs:46-93 | the error reported is that of the first entry that is no part of a tree, and that entry has the defect the error names |
| `ByteOrder.BinarySearch` | src/directory.zig:148-160 | on increasing paths the search finds a path exactly when scanning does, at the same index |
| `ByteOrder.IndexOfUnique` | rust/src/directory_structure.rs:38-45 | in an increasing list a path has one position |
| `ByteOrder.LtMeans` | docs/directory-format.md:29 | one path precedes another exactly when it is a proper prefix or has the smaller byte where they first differ |
| `Paths.SymlinkContainment` | rust/src/directory.rs:67-88 | a target is accepted exactly when the link and text are valid, no component is empty, and resolving every prefix from the link's directory stays below the root |
| `Paths.CounterIsStackHeight` | rust/src/directory.rs:74-86 | after every prefix the depth counter is the height of the component stack |
| `Paths.ValidateSymlinkTarget` | rust/src/directory.rs:67-88 | the counting loop reports the specified error |
| `Paths.JoinOfSplit` | rust/src/directory.rs:49-66 | joining undoes splitting into components, and no component holds a separator |
| `Paths.PathsAreComponents` | docs/directory-format.md:23-30 | the valid paths are exactly the UTF-8 joins of components that are not empty, `.` or `..` and hold no separator or NUL, up to 4096 bytes and not starting like a drive |
| `Utf8.DecodeOfEncode` | rust/src/path_filter.rs:48-58 | every sequence of characters survives UTF-8 |
| `Utf8.EncodeOfDecode` | rust/src/path_filter.rs:48-58 | accepted bytes are the UTF-8 of the characters they decode to, so no overlong or surrogate form is accepted |
| `MetadataCanonical.FaultMeans` | rust/src/metadata_canonical.rs:244-320 | validation accepts exactly the canonical records |
| `MetadataCanonical.Validate` | rust/src/metadata_canonical.rs:244-320 | the validating loops report exactly the specified first error |
| `MetadataCanonical.AcceptedMeans` | rust/src/metadata_canonical.rs:244-320 | which records are accepted, family by family: order of classes, tags and names, sizes, nanoseconds below 10^9, holes that neither overlap nor touch |
| `MetadataCanonical.RefusedMeans` | rust/src/metadata_canonical.rs:244-320 | a refusal names a defect the record has |
| `MetadataNormalize.Normalize` | rust/src/metadata_canonical.rs:17-113 | normalization fails exactly on the specified input errors, and otherwise gives a canonical record with the same attributes and the same covered offsets |
| `MetadataNormalize.NormalizedUnique` | rust/src/metadata_canonical.rs:17-113 | there is at most one normal form, whatever the input order or the order of ties |
| `MetadataNormalize.NormalizableIsNormalized` | rust/src/metadata_canonical.rs:17-113 | whatever has a normal form, with proper holes, is normalized without error |
| `MetadataNormalize.RefusedInput` | rust/src/metadata_canonical.rs:17-113 | an input error names a defect, duplicates being two entries with one key anywhere in the input |
| `MetadataNormalize.NormalizeAgreesWithOmitted` | rust/src/metadata_borrow.rs:7-89 | on canonical records projection and normalization with the same mask agree |
| `MetadataNormalize.BorrowingOmitting` | rust/src/metadata_borrow.rs:7-89 | copying the kept families never fails on a canonical record and gives the omitted record |
| `MetadataNormalize.ClearFamilies` | rust/src/metadata_canonical.rs:28-46 | clearing family by family gives the omitted record |
| `Metadata.HasOmittedMeans` | rust/src/tree_patch_decode.rs:301-328 | the decoder's test accepts exactly the records omission leaves alone |
| `Metadata.OmitOfBits` | rust/src/metadata.rs:167-181 | a mask survives its wire form |
| `Metadata.OmittedByBit` | docs/directory-format.md:126 | what each bit of the mask takes away, from attributes at the lowest to hardlinks at the highest |
| `Metadata.BitsCombine` | rust/src/metadata.rs:167-181 | masks combine as sets do |
| `MetadataCodec.DecodeOfEncode` | rust/src/metadata_decode.rs:42-144 | every canonical record survives its encoding, and the count checks never reject it |
| `MetadataCodec.EncodeOfDecode` | rust/src/metadata_decode.rs:62-144 | every accepted byte string is the encoding of the canonical record it decodes to |
| `MetadataCodec.EncodeInjective` | rust/src/metadata_canonical.rs:160-235 | canonical records with the same bytes are the same record |
| `MetadataStream.Write` | rust/src/metadata_canonical.rs:160-235 | the field writer appends exactly the canonical bytes, or hits the sink's limit exactly when they do not fit |
| `MetadataStream.EncodedLen` | rust/src/metadata_canonical.rs:126-134 | the counted length is the exact length of the encoding |
| `MetadataStream.Encode` | rust/src/metadata_canonical.rs:135-147 | the reserved buffer is filled exactly |
| `MetadataStream.Decode` | rust/src/metadata_decode.rs:62-144 | decoding over a moving cursor equals the pure decoder, error for error |
| `Holes.MergeInPlace` | rust/src/metadata_canonical.rs:86-111 | the in-place loop keeps exactly the covered offsets and leaves strictly separated extents |
| `Holes.CanonicalFormUnique` | rust/src/metadata_canonical.rs:86-111 | any two hole lists covering the same offsets have the same canonical form |
| `Holes.SeparatedUnique` | rust/src/metadata_canonical.rs:86-111 | strictly separated extents are determined by what they cover |
| `TimeOverrides.OverrideBijection` | rust/src/metadata.rs:257-277 | valid times and accepted override attributes are in bijection |
| `TimeOverrides.ModificationBijection` | rust/src/metadata.rs:278-299 | modification overrides and accepted attributes are in bijection |
| `FilePatch.ApplyOfEncode` | rust/src/file.rs:59-96 | applying an encoded file patch gives the target back or reports the caller's limit |
| `FilePatch.ApplySound` | rust/src/file.rs:79-96 | whatever patch is given, a result has the promised digest, comes from the promised source, and is what the codec made of the frame |
| `FilePatch.EncodeFile` | rust/src/file.rs:59-74 | header first and frame appended is the encoded patch |
| `FilePatch.DecodeOfEncodeHeader` | rust/src/lib.rs:39-86 | a ZDIF header and what follows it survive encoding |
| `FilePatch.EncodeOfDecodeHeader` | rust/src/lib.rs:58-86 | every header that parses is the encoding of what it parsed to |
| `PathFilter.CompileIsRescan` | rust/src/path_filter.rs:59-121 | for every pattern the compiled tokens equal those of a compiler that rescans at every opening bracket |
| `PathFilter.ShortcutSound` | src/glob.zig:35-75 | from every position reached with the flag set, the shortcut and the rescan give the same tokens |
| `PathFilter.Compile` | rust/src/path_filter.rs:59-121 | the compiling loop gives the specified tokens, which by `GlobSyntax.CompiledAsSpelled` are the one reading of the pattern |
| `GlobSyntax.CompiledAsSpelled` | rust/src/path_filter.rs:59-121 | every pattern can be read as tokens, spelled as the glob syntax says, in exactly one way, and the compiler emits that reading |
| `GlobSyntax.StarMeans` | docs/directory-format.md:50-51 | between plain texts, `*` covers exactly what has no separator and `**` exactly what has no newline |
| `GlobSyntax.TreePrefixMeans` | docs/directory-format.md:52 | `**/` covers nothing or anything without newline that ends in a separator |
| `GlobSyntax.AnyMeans` | docs/directory-format.md:53 | `?` covers one character that is not a separator |
| `GlobSyntax.ClassMeans` | docs/directory-format.md:54 | a bracket class covers one character that is a member, or is not when the class is negated |
| `GlobSyntax.LiteralMeans` | docs/directory-format.md:55-56 | an escaped character means itself, and plain text matches itself alone |
| `PathFilter.FilterCompile` | rust/src/path_filter.rs:125-153 | the rule loop gives the compiled rules and the default, or the first empty pattern |
| `PathFilter.MatchesMeansSplits` | rust/src/path_filter.rs:155-207 | matching is the existence of a split of the path into one accepted piece per token |
| `PathFilter.FillRow` | rust/src/path_filter.rs:174-199 | one row filled from the right holds, in every cell, whether the tokens from here on match the rest of the path |
| `PathFilter.MatchRule` | rust/src/path_filter.rs:163-202 | the first cell of the last row is exactly the declarative match |
| `PathFilter.Includes` | rust/src/path_filter.rs:155-207 | the verdict is the action of the last matching rule or else the default, or the path's own error |
| `PathFilter.VerdictMeans` | rust/src/path_filter.rs:155-207 | the deciding rule is the last one some split satisfies; with none, the default decides |
| `GlobSyntax.FilterMeans` | docs/directory-format.md:44-46 | from the rules as written: the last one whose glob covers the path decides, a leading `!` turning its action round; with none, the path is included exactly when no rule is an include rule; compiling fails exactly on an empty pattern |
| `LinuxAcl.PosixAclNew` | rust/src/linux_acl.rs:95-137 | the single pass accepts exactly the empty string and the version 2 lists that are valid ACLs |
| `LinuxAcl.ValidMeans` | rust/src/linux_acl.rs:95-137 | the valid lists are exactly: owner, users by increasing id, group, groups by increasing id, a mask that may be missing only when nothing is named, everyone |
| `LinuxAcl.BytesOfEntries` | rust/src/linux_acl.rs:95-137 | an accepted byte string is the serialization of its records |
| `LinuxAcl.EntriesOfBytes` | rust/src/linux_acl.rs:52-60 | a serialized list reads back as itself and is accepted exactly when it is valid |
| `LinuxAcl.PortableAces` | rust/src/linux_acl.rs:141-169 | the converting loop gives one portable entry per record, whose tag, permissions and name `LinuxAcl.PortableBytes` reads off the bytes |
| `LinuxAcl.PortableBytes` | rust/src/linux_acl.rs:141-169 | for every record of an accepted string, the portable tag, the three permissions and the decimal name are those its bytes spell |
| `LinuxAcl.PortableOrder` | rust/src/linux_acl.rs:95-137 | portable entries come in the order of acl(5): owner, users, group, groups, mask, everyone |
| `LinuxAcl.RecordBytes` | rust/src/linux_acl.rs:103-106 | tag, permissions and id of record `i` are the little-endian words at 4 + 8i |
| `LinuxAcl.EncodePortable` | rust/src/linux_acl.rs:14-60 | it returns exactly the byte string whose records are the converted entries, if there is one; an unusable principal is reported exactly when there is one; `LinuxAcl.EncodedFields` says what each record holds |
| `LinuxAcl.EncodedFields` | rust/src/linux_acl.rs:29-40 | the number written for each tag, the permission bits turned round, the parsed id of named entries and the missing id of the others; refused exactly when a name spells no number |
| `LinuxAcl.EncodesUnique` | rust/src/linux_acl.rs:42-60 | at most one byte string encodes a list of entries, however ties are sorted |
| `LinuxAcl.RoundTrip` | rust/src/linux_acl.rs:14-169 | the portable entries of an accepted byte string, in any order, encode that byte string and no other |
| `LinuxAcl.NormalizedRoundTrip` | rust/src/linux_acl.rs:14-169 | the same through normalization by portable tag and name, which succeeds exactly below 2^32 entries |
| `LinuxAcl.TooManyEntries` | rust/src/linux_acl.rs:95-137 | an accepted byte string can have 2^32 entries or more, and these do not normalize |
| `LinuxAcl.ContainerBijection` | rust/src/linux_acl.rs:177-212 | containers and the byte strings with matching magic and lengths are in bijection |
| `LinuxAcl.Open` | rust/src/linux_acl.rs:198-212 | a container opens exactly when its parts are there and both are accepted |
| `Decimals.ParseOfPrint` | rust/src/linux_acl.rs:64-87 | every 32-bit principal survives printing and parsing |
| `Decimals.Principal` | rust/src/linux_acl.rs:64-87 | the loop with its overflow checks accepts exactly the grammatical names whose value fits |
| `Decimals.ParseMeans` | rust/src/linux_acl.rs:62-87 | a name is read as a number exactly when it is that number's digits, with zeros allowed in front, underscores between and a plus, or a minus for zero |
| `Decimals.Decimal` | rust/src/linux_acl.rs:226-243 | filling the ten-byte buffer from its end prints the number and never runs out of room |
| `Decimals.PrintDigits` | rust/src/linux_acl.rs:226-243 | every place of the printed number holds its decimal digit, with no leading zero |
| `SymlinkTransport.DecodeOfEncode` | rust/src/symlink_transport.rs:46-147 | every valid sorted list that fits survives its encoding |
| `SymlinkTransport.EncodeOfDecode` | rust/src/symlink_transport.rs:87-147 | every accepted attribute is the encoding of the valid sorted list it decodes to |
| `SymlinkTransport.CapNeverRejects` | rust/src/symlink_transport.rs:9-44 | a list whose encoding fits in 65,536 bytes has at most `MAX_RECORDS` records and is accepted by the constructor |
| `SymlinkTransport.New` | rust/src/symlink_transport.rs:32-44 | the constructor reports exactly the specified first error |
| `SymlinkTransport.RecordMeans` | rust/src/symlink_transport.rs:159-205 | a record is valid exactly when its name is one component, its three marks exclude the times they mark, an observed time goes with a kept or absent modification time, it says something, and it has neither holes nor hardlink |
| `SymlinkTransport.Encode` | rust/src/symlink_transport.rs:46-85 | encoding gives the attribute exactly when it fits, and otherwise the first error of the measuring pass |
| `SymlinkTransport.SizeFaultMeans` | rust/src/symlink_transport.rs:47-57 | the measuring pass finds an error exactly when the attribute would exceed 65,536 bytes |
| `SymlinkTransport.DecodeAttribute` | rust/src/symlink_transport.rs:87-147 | decoding with names checked as they arrive equals decoding and then checking |
| `SymlinkTransport.Find` | rust/src/symlink_transport.rs:151-156 | a record is found exactly when its name is there |
| `SymlinkMerge.TransportLaw` | src/directory_fs.zig:304-326 | reading a symlink back gives the wanted metadata, through the record if one was built and directly if not |
| `SymlinkMerge.RecordNeeded` | src/directory_fs.zig:304-326 | no record is built exactly when the symlink already reads as wanted and no birth time has to be kept |
| `SymlinkMerge.RecordMinimal` | src/directory_fs.zig:304-326 | a record keeps a family exactly when it differs from what is shown, and the attributes exactly that could not be stored |
| `SymlinkMerge.ChangedMtimeWins` | src/directory_fs.zig:629-631 | once the symlink shows another modification time the stored one is ignored, and nothing else is lost |
| `SymlinkMerge.RecordValid` | rust/src/symlink_transport.rs:159-205 | the writer's record passes validation exactly when the basename has no drive prefix |
| `SymlinkMerge.DrivePrefixedBasename` | rust/src/directory.rs:49-66 | an accepted entry path can have such a basename |
| `SymlinkMerge.DrivePrefixedRecord` | src/directory_fs.zig:304-326 | at the symlink `d/C:x`, with one modification time wanted and another shown, a record is built and fails validation |
| `SymlinkMerge.BasenameValid` | rust/src/directory.rs:49-66 | apart from a drive prefix, a basename of a valid path is a valid path |
| `SymlinkMerge.SiblingNamesIncrease` | src/directory_fs.zig:321-325 | records collected for one parent in path order are in name order |
| `SymlinkMerge.Merge` | src/directory_fs.zig:616-643 | the merging assignments normalize the specified fields |
| `SymlinkMerge.MergeXattrsMeans` | src/directory_fs.zig:619-622 | the merged attributes are the native ones and those kept whose key is free |
| `SymlinkMerge.MergeTimesMeans` | src/directory_fs.zig:629-635 | each time is the kept one, absent if so marked, and otherwise the native one; the kept modification time counts only while the observed one is shown |
| `SymlinkMerge.MergeSays` | src/directory_fs.zig:623-641 | what the record speaks of reads as it says, an override speaking of the whole family; a record that says nothing changes nothing |
| `SymlinkMerge.PreserveXattrs` | src/directory_fs.zig:824-852 | the attributes kept are exactly those the file system refused, in order |
| `SymlinkParent.DirectoryLaw` | src/directory_fs.zig:597-643 | for all symlinks of one directory: if the attribute fits and no name has a drive prefix, it decodes to the records written, and looking up and merging gives every symlink its wanted metadata and nothing else |
| `SymlinkParent.RecordsSorted` | src/directory_fs.zig:304-326 | the records of one directory pass the constructor's checks exactly when no recorded name has a drive prefix |
| `SymlinkParent.FindsOwn` | src/directory_fs.zig:528-529 | every symlink finds its own record, and one without a record finds none |
| `SymlinkParent.CollectRecords` | src/directory_fs.zig:289-326 | the collecting loop gives the records in path order |
| `Selection.SelectEntries` | src/directory_fs.zig:883-909 | on a valid snapshot no parent is missing and exactly the included entries and their ancestors are left |
| `Selection.ChosenMeans` | src/directory_fs.zig:883-909 | an entry is left exactly when it or something beneath it is included, and the order is kept |
| `Selection.ChosenWellFormed` | src/directory_fs.zig:883-909 | filtering a well-formed tree leaves a well-formed tree |
| `HardlinkRebase.Rebase` | src/directory_fs.zig:943-957 | the in-place pass with its table gives the rebased entries |
| `HardlinkRebase.RebasedChecked` | src/directory.zig:168-189 | after any selection the rebased entries pass the snapshot and relation checks |
| `HardlinkRebase.Leader` | src/directory_fs.zig:943-957 | the canonical file of a group is its first included path, and the others refer to it |
| `HardlinkRebase.GroupsPreserved` | src/directory_fs.zig:943-957 | two files share a group afterwards exactly when they did before |
| `HardlinkRebase.RebasedFixed` | src/directory_fs.zig:943-957 | a snapshot that already passes is left alone |
| `HardlinkRebase.RebasedCanonical` | src/directory_fs.zig:36-67 | filtering and rebasing a canonical snapshot gives a canonical snapshot |
| `SparseCapture.HolesFromAllocated` | src/native_sparse.zig:6-20 | exactly the ordered, disjoint, in-file ranges are accepted, and the holes are their exact complement in canonical form |
| `SparseCapture.ComplementUnique` | src/native_sparse.zig:6-20 | no other canonical hole list is that complement |
| `SparseCapture.CollectRanges` | src/native_sparse.zig:103-126 | the paging loop terminates for every port and collects exactly the ranges returned |
| `SparseCapture.CaptureRanges` | src/native_sparse.zig:103-127 | the captured holes are those of one pass over everything the pages returned |
| `SparseCapture.PagedIsWhole` | src/native_sparse.zig:103-127 | however the pages of a valid range list are cut, the whole list is collected |
| `SparseCapture.LaterPagesSupported` | src/native_sparse.zig:111-115 | once a page has been read, lack of support is never reported as an absence of holes |
| `Publish.Safety` | src/directory_fs.zig:91-143 | in every state of every run everything other processes made is there as they left it and nothing else is except below our stage or output; the output holds something of ours only once the call is done, and then it reads back with the identity of what was rebuilt from the source as it stood when it was read |
| `Publish.SourceIntact` | src/directory_fs.zig:91-143 | while the source exists, all of it is as other processes made it exactly when the output's parent is not the source or beneath it, or nothing of ours is there yet |
| `Publish.SourceKept` | src/directory_fs.zig:124-140 | a step of the call leaves the source unchanged exactly when the output's parent is not the source or beneath it, or the disk does not change |
| `Publish.ProgramLeavesOthers` | src/directory_fs.zig:124-126 | no step of the call changes or deletes a foreign node |
| `Publish.StepKeeps` | src/directory_fs.zig:91-143 | every step of the call and of other processes keeps the invariant |
| `Publish.SeenWhen` | src/directory_fs.zig:113-122 | what is rebuilt from was read from the source, with the rules and mask of the patch, in an earlier state of the run |
| `Publish.FailureLeavesNoOutput` | src/directory_fs.zig:126-143 | a failed call has published nothing; all that can be left is its own stage, and only behind a cleanup (`Publish.FailsThroughCleanup`) |
| `Publish.FailsThroughCleanup` | src/directory_fs.zig:126 | no call that made a stage fails without having gone through its cleanup |
| `Publish.CanCleanUp` | src/directory_fs.zig:126-138 | from every point at which a stage is there, some continuation fails and leaves exactly what other processes have made |
| `Publish.ExistingOutputRefused` | src/directory_fs.zig:104-109 | an output that exists when it is looked for makes the call fail without ever touching the disk |
| `Publish.SuccessLeavesOneTree` | src/directory_fs.zig:140-142 | a call that succeeded has left exactly one new tree, the output |
| `Publish.Publishes` | src/directory_fs.zig:91-143 | with room, a patch that applies and a stage that reads back right, some run publishes it and changes nothing else |
| `PublishPatch.PublishedIsPromised` | src/directory_fs.zig:111-142 | what is published reads back, without rules, with the target identity written in the patch, and was rebuilt from a reading of the source through the patch's rules with the source identity |
| `PublishPatch.PublishedIsTarget` | src/directory_fs.zig:91-143 | for a patch created from two trees, whatever is published reads back as the projected target, when digests do not collide |
| `PublishPatch.CreatedPublishes` | src/directory_fs.zig:91-143 | where the source still reads as it did when the patch was created, some run publishes the target |
| `PublishPatch.ViewCanonical` | src/directory_fs.zig:51-62 | reading a canonical tree through rules gives the rebased selection, and it is canonical |
| `PublishPatch.PlainView` | src/directory_fs.zig:51-62 | without rules, reading gives the walk itself exactly when it passes the checks |
| `PublishPatch.OutputInsideSource` | src/lib.zig:165-205 | with source `A` and output `A/out` a run succeeds and leaves the output inside the source |

## Left out

- zstd and BLAKE3 themselves: they are parameters, and the codec law and the absence of collisions are hypotheses.
- Running out of memory and every buffer reservation: the outcome `OutOfMemory` does not occur in the model.
- Borrowing and ownership (`Cow`): byte fields are plain sequences.
- System calls, descriptors, directory traversal, stat, native ACL, Finder and attribute access: what they return is a parameter of the lemmas, such as the `Walk` of `PublishPatch`.
- `capture` and `punch` in src/native_sparse.zig: seeking for holes and punching them is I/O around the modelled complement.
- `assignHardlinks`: it reads device and inode numbers; the model starts from entries that already carry references.
- The C interface, the command line, src/pcre2.zig and the translation of globs to regular expressions.
- `metadata_restore.rs`: chooses, from a table of what each operating system can store, which restore actions and warnings a record needs; nothing modelled here depends on the choice.
- `attribute_name.rs`: maps attribute names to and from each system's native spelling, a prefix and a length check per system; the model starts from the portable names.
- `Omit::parse`: reads the comma-separated family names of the command line; the model starts from the mask.
- The Zig relation check compares metadata by digest; the model compares the records, which is the same when digests do not collide.
- The Zig output counter of `applyPatchRoot` and its own encoder: the Rust pipeline is the one modelled.
- Publish.Safety: other processes may create, change and remove anything, the source included, except what the call itself has made.
- Publish.Safety: a tree is read in one step, so other processes do not change the source in the middle of a reading.
- Publish.Safety: creating or renaming an entry also updates the times of the directory that holds it; the model leaves that node alone.
- Publish.Safety: locations are those the open directory handles denote; another process renaming a directory above them is not modelled.
- SymlinkMerge.TransportLaw: access times are outside the law, as the writer never keeps them.
