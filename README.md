# Entity metadata reconciliation engine of mdm-gen, in Dafny

mdm-gen turns a server-side data model (a compiled assembly of "model" classes and
paired "input" classes whose properties carry index attributes) into a
`ModelMetaData` document that client code consumes. This project models the part of
it that computes that document, and the small pure pieces around it:

- **Reconcile** (`Reconcile.dfy`, `GetPropertyByIndex`): model-side property records
  are joined with input-side ones on (Index, IsEntity) into `PropertySearchInfo`
  entries, in model property order. Input properties whose *name* no model property
  has are then appended, in input order.
- **Partition** (`Partition.dfy`, `GetDictionaryFromRelated`, `GetEnumDictionaryFromRelated`):
  the entries of one kind go into a map keyed by field index (`ToDictionary`). The
  exported name lower-cases the first character only.
- **Fold** (`Fold.dfy`, `GetModel`): SUGGESTION entries go into the string map and NUM64
  entries into the number map, each only where the key is absent. LOCAL_REFERENCE
  entries go into the reference map with an unguarded `Add`.
- **Assemble** (`Assemble.dfy`, `GetPropertySearchInfo` and the pure part of
  `GenerateDataMdm`): one `EntityMetadata` per model class with an
  `EntityIndexAttribute`, in discovery order.
- **Tags** (`Tags.dfy`): the next semantic-version tag `StageCommitPush` applies. Both
  the live computation in `util/GenUtil.Git.cs` and the older one in `MdmGen.cs` are
  modelled.
- **Commits** (`Commits.dfy`): the commit loop of `StageCommitPush`, as a `Repository`
  class whose methods update its fields.
- **Converters** (`Converters.dfy`): `JsonMemberNameConverter.Convert` and
  `TypeMemberConverter.Convert`.
- **References** (`References.dfy`): the line logic of `GetIndex` and
  `ReplaceReference`, in place on an array of lines.
- `Metadata.dfy` holds the records; `Text.dfy` the .NET string and number primitives;
  `Wrappers.dfy` holds `Option` and `Result`.

`MdmGen.cs` is an older copy of `DataGen.cs`. Its `GetModel`, `GetDictionaryFromRelated`,
`GetEnumDictionaryFromRelated`, `GetPropertyByIndex`, `GetPropertySearchInfo` and the
assembly in `GenerateDataMdm` (MdmGen.cs:232-299, 315-350, 381-467) match DataGen.cs:94-196,
343-383 and 434-531 token for token, apart from comments. One set of members models
both, and some rows below cite the `MdmGen.cs` lines. Its tag computation differs and
is modelled separately.

Reflection is replaced by explicit records. A model property is a `ModelField`: name,
index, isEntity, kind code, visible, auto-numeric, enumerable, and the labels of its
type. An input property is an `InputField`, which carries its Required/Unique marks.
The documentation implementation (`IMdmDocumentation`) is a pair of functions. The
numeric values of `KindProperty` and `KindEntityProperty` are not visible, so every
definition takes them as a `KindCodes` parameter. The exceptions the code can raise
are `Err` values:

- `Name[0]` on an empty name.
- `Dictionary.Add` of a key that is already present.
- `First()` on an empty sequence.
- `Substring(1)` on an empty or null string.
- `int.Parse(null)` and an index out of range in the older tag computation.

Behaviour the model keeps as the code has it, although a reader might expect otherwise:

- Entries synthesized for input-only fields have `HasInput` false. `HasInput`,
  `Visible` and `AutoNumeric` are never assigned there (DataGen.cs:488-502).
- A LOCAL_REFERENCE entry whose index a REFERENCE entry already has makes `GetModel`
  throw; it does not lose silently (DataGen.cs:140-142).
- A class with an `EntityIndexAttribute` but no input class is still exported, with
  every map empty (DataGen.cs:527, 343).
- Two entries of one kind group with the same index make `ToDictionary` throw
  (DataGen.cs:168).

## Model

| member | source | states |
|---|---|---|
| `Reconcile.Reconciled` | DataGen.cs:434-508 | no contract of its own: the model entries followed by the synthesized input-only entries; specified by `ModelEntryJoin`, `ModelEntryEnumsAndInfo`, `InputOnlyMembers` and `SynthesizedEntry` |
| `Reconcile.FirstMatch` | DataGen.cs:454 | the input field picked is the first one with the same Index and IsEntity; there is none exactly when no input field pairs |
| `Reconcile.GetPropertyByIndex` | DataGen.cs:434-508 | the loop returns the model entries followed by one synthesized entry per input field whose name no model entry has, in input order |
| `Reconcile.InputOnlyNone` | DataGen.cs:482 | when every input name is taken, no entry is synthesized, so the guarded branch can be skipped |
| `Reconcile.ModelEntryJoin` | DataGen.cs:450-478 | each model field yields the entry at its own position with its name, index, IsEntity, visibility, auto-numeric flag and IsEnumerable (the exported isArray); HasInput holds iff some input field has the same (Index, IsEntity); Required/Unique come from the first such field and are false without one |
| `Reconcile.ModelEntryEnumsAndInfo` | DataGen.cs:462-466 | labels are the type's labels iff the field is a value of kind ENUM, otherwise empty; an entity reference is documented by the owning entity's index, a value by (kind, field index); Related/RelatedEntity split the kind code by IsEntity |
| `Reconcile.InputOnlyAppend` | DataGen.cs:484-486 | selecting input-only fields distributes over concatenation, so input order is kept |
| `Reconcile.InputOnlyMembers` | DataGen.cs:484 | exactly the input fields whose name no model entry has are selected |
| `Reconcile.NameTakenByField` | DataGen.cs:482 | a name is taken by the model entries iff some model field has that name (matching is by name, not by index) |
| `Reconcile.SynthesizedEntry` | DataGen.cs:486-504 | each entry after the model ones comes from an input field no model field names; index, IsEntity, IsEnumerable and Required/Unique come from the input side, as does the kind (Related for a value, RelatedEntity for an entity reference) and the ENUM labels; IndexClass is the entity; HasInput, Visible and AutoNumeric are false; documentation comes from the field's kind and index, or from its own entity index for an entity reference |
| `Reconcile.InputOnlyCovered` | MdmGen.cs:427-449 | every input field whose name no model field has gets an entry after the model entries |
| `Reconcile.FirstMatchIgnoresKind` | MdmGen.cs:396 | the pairing does not look at the input field's kind code |
| `Reconcile.ModelEntriesIgnoreInputKind` | MdmGen.cs:392-423 | the model entries do not depend on the input fields' kind codes |
| `Text.ToLowerAscii` | DataGen.cs:172 | an ASCII capital becomes its lower-case letter; every other character is unchanged |
| `Partition.NameProp` | DataGen.cs:172 | no contract of its own: the exported name; specified by `NamePropShape` and `NamePropExamples` |
| `Partition.Where` | DataGen.cs:165 | the filter keeps exactly the accepted elements, each as often as the input holds it, and no more than the input |
| `Partition.WhereAppend` | DataGen.cs:165 | the filter distributes over concatenation, so it keeps the input order |
| `Partition.KeyEntries` | DataGen.cs:168 | every key of a successful map holds an entry with that index and a non-empty name; success and errors in full by `KeyEntriesSpec` and `KeyEntriesError` |
| `Partition.KeyEntriesSpec` | DataGen.cs:168 | keying succeeds iff every name is non-empty and no index repeats; the map then holds every element under its own index and has no other key |
| `Partition.KeyEntriesError` | MdmGen.cs:277 | a failure names its cause: an element with an empty name at that index, or two elements sharing that key |
| `Partition.NamePropShape` | DataGen.cs:172 | the exported name has the same length, its first character lower-cased and the rest unchanged; a name not starting with a capital is unchanged; the projection is idempotent |
| `Partition.NamePropExamples` | MdmGen.cs:281 | "Id" becomes "id" and "URLPath" becomes "uRLPath" |
| `Partition.DictionaryFromRelated` | DataGen.cs:160-179 | no contract of its own: one kind's map; specified by `DictionaryFromRelatedSpec` and `DuplicateInGroupFails` |
| `Partition.DictionaryFromRelatedSpec` | DataGen.cs:160-179 | a group's map exists iff the group's names are non-empty and its indexes distinct; it then holds each member of the group (entity entries by RelatedEntity, value entries by Related), projected, under its index, and no other key |
| `Partition.DuplicateInGroupFails` | MdmGen.cs:273-288 | any two entries of one group with the same index, equal or not, make the map fail |
| `Partition.EnumDictionaryFromRelated` | DataGen.cs:187-196 | no contract of its own: the ENUM map; specified by `EnumDictionarySpec` and `EntityReferenceInEnumMap` |
| `Partition.EnumDictionarySpec` | DataGen.cs:187-196 | the enum map holds exactly the entries whose Related is the ENUM code, with name lower-cased at the front and isArray, Info and labels copied verbatim |
| `Partition.EntityReferenceInEnumMap` | MdmGen.cs:292 | the enum filter ignores IsEntity: if ENUM's code is 0, an entity reference (Related 0) lands in the enum map |
| `Fold.AddAbsent` | DataGen.cs:126-138 | adding the entries of a map whose keys the destination lacks, one by one, yields the destination with the missing keys filled in; existing entries are kept |
| `Fold.AddAll` | DataGen.cs:140-142 | the unguarded `Add` loop yields the union, or fails at the first source key already in the destination |
| `Fold.Folded` | DataGen.cs:94-149 | no contract of its own: the entity `GetModel` builds; specified by `FoldedSucceeds`, `FoldedShape`, `FoldedStrings`, `FoldedNumbers`, `FoldedReferences` and `FoldedOthers` |
| `Fold.GetModel` | DataGen.cs:94-149 | the method computes `Folded`: every map built in initializer order, then the three merges |
| `Fold.FoldedSucceeds` | DataGen.cs:108-142 | GetModel succeeds iff every kind group keys without error and no LOCAL_REFERENCE index is also a REFERENCE index; the collision then reported is such a shared index |
| `Fold.FoldedShape` | MdmGen.cs:232-271 | a successful fold is made of each kind's map; strings and numbers are the preferred map over the secondary one; the reference map is the join |
| `Fold.PreferredUnion` | MdmGen.cs:257-265 | a merge keeps every entry of the preferred kind and an entry of the secondary kind only where the preferred kind has no entry at its index |
| `Fold.FoldedStrings` | DataGen.cs:122-134 | the string map holds every STR entry and every SUGGESTION entry whose index no STR entry has; a STR entry is never replaced |
| `Fold.FoldedNumbers` | DataGen.cs:124-138 | the number map holds every NUM32 entry and every NUM64 entry whose index no NUM32 entry has; a NUM32 entry is never replaced |
| `Fold.JoinedSpec` | MdmGen.cs:259-268 | the LOCAL_REFERENCE merge succeeds iff no LOCAL_REFERENCE index is a REFERENCE index, and a failure names such an index |
| `Fold.FoldedReferences` | DataGen.cs:115-142 | after a successful fold the reference map holds every REFERENCE and every LOCAL_REFERENCE entry and no other key |
| `Fold.FoldedOthers` | DataGen.cs:98-116 | the BOOL, DATE, DBL and GEO maps hold exactly their own group and the enum map is unchanged by the fold; the header comes from the entity's documentation |
| `Assemble.GetPropertySearchInfo` | DataGen.cs:519-531 | no contract of its own: a class's entries; specified by `PropertySearchInfoEmpty` and `ReconciledAutoNumeric` |
| `Assemble.PropertySearchInfoEmpty` | DataGen.cs:519-531 | a class's entries are empty iff it has no EntityIndexAttribute, no input class, or neither model nor input fields |
| `Assemble.ExportedHaveIndex` | DataGen.cs:343 | exactly the classes with an EntityIndexAttribute are exported |
| `Assemble.ExportedAppend` | MdmGen.cs:315 | exporting keeps discovery order: it distributes over concatenation |
| `Assemble.ReconciledAutoNumeric` | DataGen.cs:376 | some reconciled entry is auto-numeric iff some model field is |
| `Assemble.EntityHeader` | DataGen.cs:343-380 | an exported entity takes index, visibility, path and kind from the first EntityIndexAttribute, its name and menus from the class, its texts from the documentation; AutoNumeric holds iff it has an input class and some model field is auto-numeric |
| `Assemble.MissingInputExported` | MdmGen.cs:455-466 | a class without an input class is still exported, with every map empty and AutoNumeric false |
| `Assemble.CollectSpec` | DataGen.cs:369-380 | collecting succeeds with every entity in order, or fails with the first entity's error |
| `Assemble.GenerateDataMdm` | DataGen.cs:343-383 | no contract of its own: the document; specified by `DocumentSpec` and `ExportedHaveIndex` |
| `Assemble.DocumentSpec` | DataGen.cs:343-383 | the document lists one entity per exported class, in discovery order, each built from that class alone; a failure is the first failing class's error |
| `Text.TryParseInt32` | util/GenUtil.Git.cs:55 | a parsed value lies in the 32-bit range |
| `Text.ParseFormat` | util/GenUtil.Git.cs:58-75 | formatting a 32-bit integer and parsing it gives it back |
| `Text.SplitNCount` | util/GenUtil.Git.cs:42-43 | a split into at most n pieces has min(n, full piece count) pieces |
| `Text.Wrap32` | util/GenUtil.Git.cs:75 | unchecked addition: the result is in the 32-bit range, differs from the input by a multiple of 2^32 (which fixes it uniquely), and equals the input when that is in range |
| `Tags.ParseTag` | util/GenUtil.Git.cs:42-60 | no contract of its own: a tag name read as a version; specified by `ShortTagRejected`, `ExtraPiecesRejected`, `FormatTagParses` and `ValidTagsSpec` |
| `Tags.ShortTagRejected` | util/GenUtil.Git.cs:42 | a tag with fewer than three dot-separated parts is ignored |
| `Tags.ExtraPiecesRejected` | util/GenUtil.Git.cs:43-55 | the patch part keeps the remainder, so a tag with a fourth part ("1.2.3.4") fails `int.TryParse` and is dropped |
| `Tags.FormatTagParses` | util/GenUtil.Git.cs:56-63 | a formatted version reads back as itself |
| `Tags.ValidTagsSpec` | util/GenUtil.Git.cs:42-63 | every valid version comes from a tag, every tag that reads as a version contributes, and there are none iff no tag reads as one |
| `Tags.InvalidTagIgnored` | util/GenUtil.Git.cs:55 | a tag that does not read as a version does not change the new tag |
| `Tags.MaxBy` | util/GenUtil.Git.cs:70-72 | the maximum bounds every selected value and is attained |
| `Tags.NextTag` | util/GenUtil.Git.cs:42-80 | no contract of its own: the new tag from the repository's tag names; specified by `NextTagDefault`, `NextTagBumps` and `NextTagFresh` |
| `Tags.NextTagOf` | util/GenUtil.Git.cs:66-80 | no contract of its own: the new tag from the valid versions; specified by `NextTagDefault`, `NextTagBumps`, `BumpedSpec` and `PatchOverflowWraps` |
| `Tags.NextTagDefault` | util/GenUtil.Git.cs:77-80 | with no valid tag the new tag is "0.0.1" |
| `Tags.BumpedSpec` | util/GenUtil.Git.cs:70-75 | the new version has the largest major and the largest minor, each attained; without overflow its patch exceeds every valid patch; it reads back as itself |
| `Tags.NextTagBumps` | util/GenUtil.Git.cs:67-76 | with valid tags the new tag is the bumped version, and it reads back as that version |
| `Tags.ValidTagsBounded` | util/GenUtil.Git.cs:58-60 | every parsed part lies in the 32-bit range |
| `Tags.BumpedIsNew` | util/GenUtil.Git.cs:72-75 | without overflow the bumped version is none of the versions it came from |
| `Tags.NextTagFresh` | util/GenUtil.Git.cs:65-80 | without overflow the new tag is not the name of any valid existing tag |
| `Tags.PatchOverflowWraps` | util/GenUtil.Git.cs:75 | with a patch at 2147483647 the unchecked `maxPatch + 1` wraps: the new tag's patch is -2147483648, below every existing patch, and the tag reads back as that version |
| `Tags.MaxString` | MdmGen.cs:91-93 | the string maximum is one of the strings and no string is ordinally greater |
| `Tags.LegacyNextTag` | MdmGen.cs:77-95 | no contract of its own: the older tag computation; specified by `LegacyNextTagSpec`, `LegacyErrors` and `LegacyTagCollides` |
| `Tags.LegacyPieces` | MdmGen.cs:77-88 | the rows kept have three pieces and a patch that parses |
| `Tags.LegacyPiecesSpec` | MdmGen.cs:77-88 | the rows are the three-way splits of exactly the names the live computation reads as versions, in tag order, each row reading as its version |
| `Tags.LegacyFromPiecesSpec` | MdmGen.cs:91-95 | on rows, the result fails iff there are none, and otherwise is the ordinally greatest major piece, the greatest minor piece and the greatest patch piece parsed and bumped |
| `Tags.LegacyNextTagSpec` | MdmGen.cs:77-95 | the older computation succeeds iff every tag has three parts and one reads as a version; its tag is then built from the string maxima of the columns, with the patch parsed and bumped |
| `Tags.LegacyErrors` | MdmGen.cs:77-95 | the older computation throws (index out of range) iff some tag has fewer than three parts; it throws on `int.Parse(null)` iff all tags have three parts but none is valid; unlike the live computation it has no "0.0.1" fallback: it succeeds only when some tag reads as a version |
| `Tags.LegacyTagCollides` | MdmGen.cs:91-95 | on tags "1.0.9" and "1.0.10" the older computation proposes "1.0.10", which exists |
| `Tags.CorrectedTagFresh` | util/GenUtil.Git.cs:65-80 | on the same tags the live computation proposes "1.0.11", a new tag |
| `Commits.Messages` | util/GenUtil.Git.cs:102-104 | one message per operation, in dictionary order |
| `Commits.Repository.Invoke` | util/GenUtil.Git.cs:106 | invoking records the operation and returns its result; nothing else changes |
| `Commits.Repository.StageAll` | util/GenUtil.Git.cs:109 | one more staging; nothing else changes |
| `Commits.Repository.Commit` | util/GenUtil.Git.cs:112 | the log gains the message; nothing else changes |
| `Commits.Repository.RunOperations` | util/GenUtil.Git.cs:102-115 | every operation is invoked once, in order; the log gains exactly the messages of the operations that returned true, in order, each after one staging |
| `Commits.Committed` | util/GenUtil.Git.cs:102-115 | no contract of its own: the messages committed; specified by `CommittedSpec`, `CommittedAppend` and `Commits.Repository.RunOperations` |
| `Commits.CommittedSpec` | MdmGen.cs:109-121 | a message is committed iff some operation with it returned true; there are as many commits as successes, at most one per operation |
| `Commits.CommittedAppend` | util/GenUtil.Git.cs:102-103 | commits keep operation order |
| `Commits.AllSucceedCommitsAll` | util/GenUtil.Git.cs:106-113 | when every operation returns true every message is committed, in order |
| `Commits.NoneSucceedCommitsNothing` | MdmGen.cs:113-119 | when no operation returns true nothing is staged or committed |
| `Converters.DropFirst` | TypeMemberConverter.cs:23 | `Substring(1)` succeeds iff the string is non-empty, and then returns the rest after the first character |
| `Converters.TypeName` | TypeMemberConverter.cs:19-26 | a non-interface name is returned unchanged; an interface name loses its first character (a suffix one shorter); an empty interface name throws |
| `Converters.TypeNameStripsPrefix` | TypeMemberConverter.cs:21-24 | "I" + n for an interface converts to n |
| `Converters.MemberName` | JsonMemberNameConverter.cs:21-33 | the attribute's PropertyName (possibly null) wins over the given name; without the interface branch it is returned unchanged; in that branch a null name throws and a name loses its first character |
| `Converters.MemberNameWithoutAttribute` | JsonMemberNameConverter.cs:25-32 | without a JsonProperty attribute the member converter agrees with the type converter |
| `Converters.MemberNameAttributeWins` | JsonMemberNameConverter.cs:23-25 | with the attribute present the member's own name plays no part |
| `References.GetIndex` | DataGen.cs:278-280 | the index returned is the first line that names the file and contains "from"; there is none iff no line does |
| `References.RewriteFile` | DataGen.cs:282-297 | a file is untouched iff no line names the file and contains "import"; it fails iff such a line exists but no line names the file and contains "from"; otherwise only the first such line changes, to its rewrite |
| `References.ReplaceInFile` | DataGen.cs:286-295 | the array of lines ends as `RewriteFile` says, and the result tells whether it is written back |
| `References.RewriteLine` | DataGen.cs:291-293 | no contract of its own: the rewritten source line; specified by `RewriteSingleFrom`, `RewriteWithoutSibling` and `RedirectImport` |
| `References.RewriteSingleFrom` | DataGen.cs:291-293 | a line with one "from" becomes the text before it, " from ", and the rest with './X' redirected |
| `References.RewriteWithoutSibling` | DataGen.cs:291-293 | a line with one "from" and no './X' after it keeps its text; only the spaces around "from" change |
| `References.RedirectImport` | DataGen.cs:291-293 | a generated import `p from './X';` becomes `p from './../extra/X';`, with the spaces around "from" doubled |

## Left out

- Reflection and discovery (`GetTypesFromNameSpace`, `GetLoadableTypes`, attribute reads,
  `Mdm.Reflection.*`, `Assembly.LoadFrom`): the model and input properties, the entity
  attributes and the input class of each entity index are explicit inputs
  (`ModelType`, `InputTypes`). `GetDescription` is the `typeLabels` field.
- `IMdmDocumentation`: two functions in `Documentation`, not interpreted.
- The `Group` array of each entry (`GroupAttribute`s) and `IndexClass` beyond its value:
  carried by no exported map, so not modelled.
- JSON serialisation, the camel-case resolver and the TypeScript text and files
  (DataGen.cs:386-414, MdmGen.cs:352-370): output formatting, not part of the computation.
- Git plumbing: clone, `ApplyTag`, `Checkout`, `Push`, and the work the operations do on
  the files. Only the tag arithmetic and the commit-if-true loop are modelled.
  `Commits.Repository` records stagings and commit messages; the signature, its clock,
  and `Commit` failing when nothing changed are not modelled.
- File-system work: `RecursiveDelete` (util/GenUtil.cs), the copy, delete, read and
  write in `FixDataModel` and `ReplaceReference`, and the `RemoveAt(GetIndex(...))` on
  the index files. Only the line logic is modelled.
- TypeGen spec registration (ModelSpec.cs, DataSpec.cs, ModelGen.cs, `MdmGen.ModelSpec`)
  and the CLI (Program.cs): declarative calls into libraries that are not part of this model.
- Culture-sensitive behaviour: `char.ToLower` is ASCII lower-casing, and the string
  maximum of the older tag computation uses ordinal order. `FormatInt` and
  `TryParseInt32` always use '-' and '+' as signs, where `int.ToString()` and
  `int.TryParse` use the current culture's NegativeSign and PositiveSign (U+2212 under
  some cultures), so a negative part of a tag is modelled in the invariant culture only.
- `Dictionary` enumeration order is taken to be insertion order, so a map built from a
  group is visited in the group's order.
- Text.TryParseInt32: does not accept the trailing NUL characters `int.TryParse` also
  skips, and treats only ASCII white space as skippable.
- Converters.MemberName: `memberInfo.GetType().IsInterface` is an input flag. The model
  does not decide whether a reflection object's runtime class can be an interface.

## Findings

| source | as written | input that shows it | evidently intended | confidence | as-written member | corrected member |
|---|---|---|---|---|---|---|
| MdmGen.cs:91-95 | the maxima of major, minor and patch are taken over the piece strings, so "9" > "10" | tags "1.0.9" and "1.0.10": the new tag is "1.0.10", which already exists | numeric maxima, as util/GenUtil.Git.cs:70-75 computes them, giving "1.0.11" | high, not executed | `Tags.LegacyTagCollides` | `Tags.CorrectedTagFresh` |
