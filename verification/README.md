# Dongle Rescue, verified model

A Dafny model of the diagnostic core of Dongle Rescue (`src/dongle_rescue/`), with
proofs of what that core promises. To check the whole project, call
`dafny verify dfyconfig.toml`.

The modules follow the program's components.

* **Modalias matching** (`modules_alias.dfy`, `alias_glob.dfy`, `alias_printers.dfy`,
  `glob_spelling.dfy`, `modalias_spelling.dfy`, `enumeration.dfy`, `enumeration_laws.dfy`): the cursor parser of `usb:` bodies, the field-wise matcher, the
  anchored `*`-glob of the kernel as an independent definition, the row parser of
  modules.alias, and the two printers (device modalias, planned alias line).
* **Transactions and journal** (`dicts.dfy`, `json_values.dfy`, `json_text.dfy`,
  `json_roundtrip.dfy`, `json_grammar.dfy`, `json_writer.dfy`, `transactions.dfy`,
  `journal.dfy`, `journal_roundtrip.dfy`, `journal_lines.dfy`, `journal_file.dfy`): JSON values with insertion-ordered dictionaries, the writer and
  the parser of sections 4 to 7 of RFC 8259 with Python's conventions, the hashed
  text of a transaction id, and the JSON-lines journal as a file object.
* **Repair** (`planner.dfy`, `planner_laws.dfy`, `rollback.dfy`, `conf_files.dfy`): the state B planner, the
  rollback planner, and runs of applying and rolling back over a file system.
* **Firmware** (`paths.dfy`, `firmware_path.dfy`, `firmware_presence.dfy`):
  `posixpath.normpath` as its component stack, the path validator, the three-valued
  presence check and the two containment tests.
* **Diagnosis** (`knowledge.dfy`, `identification.dfy`, `diagnosis.dfy`,
  `log_lines.dfy`, `diagnosis_laws.dfy`, `classifier_table.dfy`): identification, the classifier, and how both meet the planner.
* **Windows and kernel releases** (`pnputil.dfy`, `pnputil_roundtrip.dfy`,
  `pnputil_blocks.dfy`, `kernel_release.dfy`): the block parser of pnputil output and the release order.
* `text.dfy`: the string primitives of the Python runtime.

Loops and updates of the source are methods and classes here, each proved equal to a
specification function or to the property itself; the laws are lemmas about those
functions. Every main result has a law of its own that says what the answer is in terms of
the input alone: the grammar of JSON texts and of alias rows, the table of diagnoses, the
contents of a plan and the text its id hashes, the fields of a device, the host's answers. A raised exception is an outcome (`None`, `Raises`, `Corrupt`, ...), the host is
a function from paths to answers, and SHA-256 is an arbitrary function parameter. A
Python string that ends up in JSON is a sequence of code points, surrogates included.

## Where the code differs from what is said about it

Each of these is proved: the code is kept as it is, the exact condition is a lemma.

* `docs/research/linux-kernel.md:36-38` says the matcher replicates the kernel's glob. It
  does so on full ten-field patterns and modaliases in the kernel's own spelling. For
  patterns in that spelling with any number of fields it accepts what the glob rejects
  exactly when the lengths do not fit: the pattern stops at a concrete field the modalias
  goes beyond, or names, by a star, a field the modalias lacks
  (`AliasGlob.GlobAgreement`). A pattern with a star behind a field's value, such as the
  `d0200*` rows of lines 35-36 of the same note, does not decode: the matcher claims
  nothing with it, whatever the glob accepts (`GlobSpelling.StarBehindFieldIsLost`,
  `GlobSpelling.RevisionPinIsLost`). Other letter cases decode as well, but there the glob
  is no longer field-wise; it is so exactly for the kernel's spelling
  (`GlobSpelling.SpellingDecides`). There are spellings that claim what the glob rejects
  and spellings where the glob accepts what they do not claim
  (`GlobSpelling.CapitalTagIsClaimed`, `GlobSpelling.CapitalTagIsAccepted`).
* The text hashed into a transaction id does not determine strings that differ in a
  surrogate pair against the code point it encodes, and the journal does not restore such
  pairs (`Transactions.SurrogatePairsCollide`, `JournalRoundTrip.RecordRestoredIffPairFree`).
  The id can still be recomputed from the journal exactly when the keys of the written
  text stay distinct and in order once such pairs in them are joined
  (`JournalRoundTrip.IdSurvivesExactly`), so whenever no key has one.
* A blocking modprobe.d file whose path is the empty string counts as no block, because
  the classifier tests the path for truth. This is the only way more evidence can lower
  the rank of a state (`DiagnosisLaws.MoreEvidenceNeverLowersRank`,
  `DiagnosisLaws.EmptyPathHidesBlock`).
* The two containment tests for firmware files do not agree on all normalised paths. With
  a base of one leading slash, other than the root directory, they disagree on the base
  itself and on targets with two leading slashes at or under it; with a base of two, on
  targets with two under it; and nowhere else (`FirmwarePresence.ContainmentTestsAgree`).
  With the root directory as base they disagree on every absolute path
  (`FirmwarePresence.RootBaseSplitsTheTests`).
* One complete device entry with an unreadable class number makes the whole enumeration
  raise: the number is read outside the guarded block
  (`Enumeration.EnumerationRaisesExactly`).
* `linux/log_access.py:108-109` says non-comparable releases never claim superiority, so
  that there is no false reboot-pending signal. When one of two releases lacks a leading
  number, the baseline is exceeded exactly when it is the one that lacks it and the
  candidate has one, or has the greater rest of the key
  (`KernelRelease.UnnumberedCompare`). So under a running release without a leading
  number any numbered release on disk, however old, gives the signal
  (`KernelRelease.UnnumberedRunningIsOutdated`).
* The key of a release is flat, so where one version continues the other the abi number of
  the shorter one is compared with the next version number of the longer one. The order
  is that of version, then abi number, exactly where such an abi number does not exceed
  such a version number (`KernelRelease.FlatKeyIsVersionOrder`).
* A planned rollback removes the conf file even when it existed before the plan was
  applied, so it undoes the application exactly when the file was absent
  (`ConfFiles.RollbackUndoesApply`).
* In state E a plan is feasible when, and only when, the entry accepts new ids and the
  caller hands in a usable loaded module (`DiagnosisLaws.PlanWithoutDriver`).
* In state B the classifier looks its entry up by chipset name and the planner by USB id.
  They agree exactly when the two entries answer alike whether new ids are accepted
  (`DiagnosisLaws.AgreementIsExact`), and so on every knowledge base with distinct chipset
  names (`DiagnosisLaws.ClassifierAndPlannerAgree`); entries that share a name can part
  them (`DiagnosisLaws.SharedNameDisagrees`).

## Model

| member | source | states |
|---|---|---|
| `ModulesAlias.ReadField` | src/dongle_rescue/linux/modules_alias.py:108-124 | one round of the cursor loop: the value of the field and the exact advance of the cursor, or rejection of the whole body |
| `ModulesAlias.ParseBodyLoop` | src/dongle_rescue/linux/modules_alias.py:98-127 | the cursor loop with its early exits computes the decoding that the next row characterises |
| `ModulesAlias.ParseBodyExact` | src/dongle_rescue/linux/modules_alias.py:98-127 | for every body and field list: parsing yields the list if and only if the body is a case variant of the printed list, or is the bare star and the list is empty; decoding is unique although tags and hex digits overlap |
| `ModulesAlias.PatternMatchesLoop` | src/dongle_rescue/linux/modules_alias.py:130-151 | the matcher, loop included, computes the field-wise comparison of the two decoded bodies |
| `ModulesAlias.FieldsMatchLoop` | src/dongle_rescue/linux/modules_alias.py:145-151 | the comparison loop with its early return: every concrete pattern field is present and equal |
| `ModulesAlias.ParseAliasLines` | src/dongle_rescue/linux/modules_alias.py:71-83 | rows are kept in file order, other lines dropped |
| `ModulesAlias.RowReads` | src/dongle_rescue/linux/modules_alias.py:24-26 | every line of the form alias, spaces, word, spaces, word, spaces is read as these two words |
| `ModulesAlias.RowIsSpelled` | src/dongle_rescue/linux/modules_alias.py:24-26 | and no other line is accepted: an accepted line is spelled by its two words and three runs of horizontal space |
| `ModulesAlias.RowExact` | src/dongle_rescue/linux/modules_alias.py:79-82 | a line of the file gives the row it spells between its margins, when the pattern starts with usb:, and no other |
| `ModulesAlias.MatchIsPerLine` | src/dongle_rescue/linux/modules_alias.py:164-171 | matching distributes over concatenated line lists, so order and duplicates are kept, and returns exactly the parsed rows that claim the modalias |
| `AliasGlob.GlobPins` | src/dongle_rescue/linux/modules_alias.py:98-151 | no star can slide a tag onto a later field: wherever the glob starts at or behind a field, it accepts only if the fields agree one by one |
| `AliasGlob.GlobAgreement` | docs/research/linux-kernel.md:36-38 | for every pattern in the kernel's spelling and every printed modalias, of any number of fields: the glob accepts if and only if the matcher claims it and the lengths fit |
| `AliasGlob.GlobAgreementFull` | docs/research/linux-kernel.md:36-38 | on full ten-field patterns and modaliases in the kernel's spelling glob and matcher always agree |
| `GlobSpelling.UndecodedNeverClaims` | src/dongle_rescue/linux/modules_alias.py:139-144 | a pattern that does not decode claims nothing, whatever the glob accepts with it |
| `GlobSpelling.StarBehindFieldIsLost` | docs/research/linux-kernel.md:35-38 | a star behind any field's value makes the pattern undecodable, so nothing is claimed, although the glob accepts everything it accepts without that star |
| `GlobSpelling.RevisionPinIsLost` | docs/research/linux-kernel.md:35-36 | an instance with a pinned revision: the glob accepts every full modalias of the pattern's fields and the matcher claims none |
| `GlobSpelling.SpellingDecides` | docs/research/linux-kernel.md:36-38 | for every pattern string that decodes to some fields: the glob treats it field by field on all modaliases if and only if it is in the kernel's spelling |
| `GlobSpelling.OtherSpellingIsClaimed` | src/dongle_rescue/linux/modules_alias.py:111-123 | every pattern of three fields or more in another spelling claims some modalias of fitting length that the glob rejects |
| `GlobSpelling.CapitalTagIsClaimed` | src/dongle_rescue/linux/modules_alias.py:111-113 | a literal case: `usb:V*` claims every printed modalias and the glob accepts none |
| `GlobSpelling.CapitalTagIsAccepted` | src/dongle_rescue/linux/modules_alias.py:111-113 | and the converse: the glob accepts a modalias the matcher does not claim, by a capital tag it finds inside a value |
| `GlobSpelling.BareStar` | src/dongle_rescue/linux/modules_alias.py:104-105 | a bare star claims every printed modalias, and the glob accepts them if and only if the prefix is in lower case |
| `AliasGlob.ClaimsFields` | src/dongle_rescue/linux/modules_alias.py:130-171 | for every pattern and every modalias, in whatever spelling: a claim is equivalent to both decoding and the decoded fields agreeing |
| `ModaliasSpelling.DecodesExactly` | src/dongle_rescue/linux/modules_alias.py:28-34 | a string decodes to a field list if and only if, white space at its ends aside, it prints that list in lower-case tags and digits of either case, with vid, pid and revision concrete and stars for interface fields only |
| `AliasGlob.DecodePrinted` | src/dongle_rescue/linux/modules_alias.py:86-127 | a printed modalias decodes to the very fields it was printed of |
| `AliasGlob.GeneralityIsInclusion` | src/dongle_rescue/linux/modules_alias.py:130-151 | every full modalias claimed by P is claimed by Q if and only if each field of Q is a star, absent, or P's concrete value |
| `AliasPrinters.DecodedModalias` | src/dongle_rescue/linux/modules_alias.py:86-127 | a modalias that passes the grammar and the parser is a case variant of a printed field list with concrete vid, pid and revision |
| `AliasPrinters.PlannerLineIsOneRow` | src/dongle_rescue/repair/planner.py:50-54 | the written alias line reads back as exactly one row with that pattern and module |
| `AliasPrinters.PlannerRowClaims` | src/dongle_rescue/repair/planner.py:50-54 | that row claims a modalias, in whatever spelling, if and only if it decodes to this vid and pid and interface fields FF/FF/00; a device-level modalias, or one with stars for its interface, is never claimed |
| `AliasPrinters.DeviceModaliasDecodes` | src/dongle_rescue/usb/enumeration.py:83-90 | the printed device modalias decodes if and only if the three class numbers fit a byte, and then to the upper-cased ids and revision and the three printed class bytes |
| `AliasPrinters.DeviceModaliasIsNeverClaimed` | src/dongle_rescue/usb/enumeration.py:83-90 | the planner's row claims no modalias the enumerator builds, of any device and with any class numbers |
| `AliasPrinters.Hex02Shape` | src/dongle_rescue/usb/enumeration.py:89 | a class byte is printed as two upper-case digits that read back as it; any other number is printed longer or with a sign |
| `Enumeration.EnumerateUsbDevices` | src/dongle_rescue/usb/enumeration.py:39-80 | the sorted, filtered loop over the directory with its skips and its escaping exception computes the result that the next rows characterise |
| `EnumerationLaws.EnumeratedExactly` | src/dongle_rescue/usb/enumeration.py:50-80 | a device is in the result if and only if a complete device node bears its name and its vendor id, product id, revision, three class numbers and modalias are those of that node's attributes, each where it belongs; names ascend |
| `EnumerationLaws.HexIntExact` | src/dongle_rescue/usb/enumeration.py:60-62 | a class number is read exactly when it is a sign or none, 0x or none, and hex digits in groups set apart by underscores, and then as their value |
| `EnumerationLaws.AttributeExact` | src/dongle_rescue/usb/enumeration.py:21-27 | an attribute is what stands between the white space at its ends, if anything does |
| `Enumeration.ListingOrderIsIrrelevant` | src/dongle_rescue/usb/enumeration.py:46-50 | the result does not depend on the order the directory is listed in |
| `Enumeration.EnumerationRaisesExactly` | src/dongle_rescue/usb/enumeration.py:57-78 | enumeration raises if and only if some complete entry has an unreadable class number |
| `EnumerationLaws.EnumeratedDevice` | src/dongle_rescue/usb/enumeration.py:60-79 | every device in the result has valid ids, and its modalias decodes if and only if its class numbers fit a byte: to the upper-case ids and revision and the three printed class numbers, in this order |
| `JsonValues.SameIffSortedEqual` | src/dongle_rescue/repair/transaction.py:22-23 | two values have equal content, whatever the key order at any level, if and only if their key-sorted forms are identical |
| `JsonRoundTrip.StringRoundTrip` | src/dongle_rescue/repair/transaction.py:22-23 | a written string reads back up to joined surrogate pairs, and the parser stops right behind it |
| `JsonRoundTrip.ValueRoundTrip` | src/dongle_rescue/repair/transaction.py:22-23 | the same for every value in both writing styles, in front of any continuation that cannot extend a number |
| `JsonRoundTrip.UnitSpelled` | src/dongle_rescue/repair/transaction.py:22-23 | an escape spells its code unit in four hexadecimal digits, most significant first |
| `JsonGrammar.DocumentExact` | src/dongle_rescue/repair/transaction.py:75-78 | a text is read as a value if and only if it spells that value by the grammar of JSON texts, with white space around it and nothing else |
| `JsonGrammar.StringComplete` | src/dongle_rescue/repair/transaction.py:75-78 | every spelled-out string body is read up to its closing quote, escaped surrogate pairs joined |
| `JsonGrammar.ValueComplete` | src/dongle_rescue/repair/transaction.py:75-78 | every spelled-out value is read whatever follows it, unless that continues a number |
| `JsonGrammar.ValueSound` | src/dongle_rescue/repair/transaction.py:75-78 | whatever is read as a value is spelled as one |
| `JsonWriter.LayoutExact` | src/dongle_rescue/repair/transaction.py:22-23 | lists and dictionaries are written as their parts between brackets, set apart by "," and ":" in the hashed text and by ", " and ": " in the journal |
| `JsonWriter.EscapeExact` | src/dongle_rescue/repair/transaction.py:22-23 | a code point is written as its shortest ASCII spelling, with lower-case digits, or as its two surrogates |
| `JournalRoundTrip.CanonicalIsSorted` | src/dongle_rescue/repair/transaction.py:22-23 | the canonical text is that of the same content with keys ascending at every level, without white space |
| `Transactions.CanonicalFraming` | src/dongle_rescue/repair/transaction.py:33-36 | a canonical text in front of a bar can be cut off in one way only |
| `Transactions.PayloadExact` | src/dongle_rescue/repair/transaction.py:26-37 | two transactions hash the same text if and only if they agree part by part; no bar inside a string can shift a boundary |
| `Transactions.PayloadIgnoresKeyOrder` | src/dongle_rescue/repair/transaction.py:22-37 | the hashed text is independent of key order at every nesting level |
| `Transactions.PayloadDetermines` | src/dongle_rescue/repair/transaction.py:26-37 | without surrogate pairs the hashed text determines all four parts up to key order |
| `Transactions.SurrogatePairsCollide` | src/dongle_rescue/repair/transaction.py:22-23 | a surrogate pair and the code point it encodes are different contents with one text, so the condition above is needed |
| `Journal.LoadStopsAtFirstBadLine` | src/dongle_rescue/repair/transaction.py:72-87 | loading reports the first line that is neither blank nor a record, with its number counting blank lines |
| `Journal.LoadSucceeds` | src/dongle_rescue/repair/transaction.py:68-88 | loading succeeds if and only if every line is blank or a record, which the next row spells out |
| `JournalLines.GoodLineExact` | src/dongle_rescue/repair/transaction.py:72-87 | a line is taken if and only if it is blank or the JSON text of an object with the five keys of a record |
| `JournalLines.LoadsExact` | src/dongle_rescue/repair/transaction.py:75-78 | a line is read as a value if and only if it is a JSON text, with dictionaries made of its objects |
| `JournalLines.LastValueWins` | src/dongle_rescue/repair/transaction.py:76 | a dictionary has the keys of its object and the last value of a repeated key |
| `JournalLines.DocumentAndMore` | src/dongle_rescue/repair/transaction.py:75-78 | a record's line with text behind it is readable if and only if that text is white space |
| `JournalLines.TornDocument` | src/dongle_rescue/repair/transaction.py:75-78 | no proper prefix of a record's line is readable |
| `JournalLines.TornLineIsReported` | src/dongle_rescue/repair/transaction.py:72-78 | a last line torn anywhere is reported under its number, unless an earlier one is |
| `JournalLines.GluedLineIsReported` | src/dongle_rescue/repair/transaction.py:72-78 | so are two records on one line; neither is read |
| `JournalLines.DocumentText` | src/dongle_rescue/repair/transaction.py:63-66 | the written line, spelled out: the five fields under their names, in the order of the names |
| `Journal.WriteAscii` | src/dongle_rescue/repair/transaction.py:63-66 | written text is printable ASCII only, so it holds no character that ends a line |
| `Journal.DocumentShape` | src/dongle_rescue/repair/transaction.py:63-66 | each record is one non-blank line under splitlines |
| `Journal.SplitLinesConcat` | src/dongle_rescue/repair/transaction.py:72 | behind a newline, splitting into lines is compositional |
| `JournalRoundTrip.LoadAfterAppends` | src/dongle_rescue/repair/transaction.py:57-88 | after any sequence of appends to any newline-ended file, load says what it said before, followed by the appended records in order; an error it reported stays the one it reports |
| `JournalRoundTrip.RestoredIffPairFree` | src/dongle_rescue/repair/transaction.py:57-88 | a value comes back with equal content if and only if none of its strings has a high surrogate directly before a low one |
| `JournalRoundTrip.RecordRestoredIffPairFree` | src/dongle_rescue/repair/transaction.py:57-88 | the same for whole records |
| `JournalRoundTrip.RestoredTextExact` | src/dongle_rescue/repair/transaction.py:22-88 | a value that went through the journal prints the same canonical text if and only if its keys, at every level, stay distinct and in order once surrogate pairs in them are joined |
| `JournalRoundTrip.IdSurvivesExactly` | src/dongle_rescue/repair/transaction.py:26-88 | a restored record hashes the very text its id was made of if and only if that holds for its four parts; the id itself is restored if and only if it has no pair |
| `JournalRoundTrip.IdSurvivesJournal` | src/dongle_rescue/repair/transaction.py:26-88 | in particular the id can be recomputed when no key has a surrogate pair, whatever the other strings hold |
| `JournalRoundTrip.PairedKeysLoseTheId` | src/dongle_rescue/repair/transaction.py:26-88 | an instance where it fails: keys that join to one lose a member in the journal, and with it the text the id was made of |
| `JournalRoundTrip.PairedKeyMayKeepTheId` | src/dongle_rescue/repair/transaction.py:26-88 | an instance where a paired key does no harm |
| `JournalOnDisk.JournalFile.constructor` | src/dongle_rescue/repair/transaction.py:60-61 | a journal starts without a file and loads nothing |
| `JournalOnDisk.JournalFile.Append` | src/dongle_rescue/repair/transaction.py:63-66 | the file grows by exactly one line, and what load answers grows by exactly that record |
| `JournalOnDisk.JournalFile.Load` | src/dongle_rescue/repair/transaction.py:68-88 | the loop over numbered lines, with both ways to fail |
| `Rollback.PlannedStepsAreSafe` | src/dongle_rescue/repair/transaction.py:91-138 | whatever a journal line says, a planned step names a grammar-valid driver and id pair or an absolute path of proper components, possibly none |
| `Rollback.RemoveFileExact` | src/dongle_rescue/repair/transaction.py:98-113 | a file removal is planned if and only if the path is one or two slashes followed by proper components and what it restores is falsy or a dictionary; the root directory itself is such a path; the refusal by ValueError is about the path alone |
| `Rollback.ZeroFloat` | src/dongle_rescue/repair/transaction.py:102 | a float as the thing to restore counts as nothing if and only if the digits in front of its exponent are all zero |
| `Rollback.PlanRollbackExact` | src/dongle_rescue/repair/transaction.py:91-138 | for every action: which one step it is planned as, if any, for noop, remove_file and remove_new_id with their arguments, and when something else than a ValueError is raised |
| `Rollback.SortedRollback` | src/dongle_rescue/repair/transaction.py:91-138 | planning depends on the content of the action, not on its key order |
| `Rollback.JournalKeepsRollback` | src/dongle_rescue/repair/transaction.py:57-138 | a record whose rollback action has no surrogate pair yields the same rollback plan after the journal |
| `ConfFiles.PlannedRollbackSteps` | src/dongle_rescue/repair/planner.py:150-179 | rolling back a planned transaction, whichever driver was bound and module loaded, never raises and removes exactly the plan's own conf file |
| `ConfFiles.RunExact` | src/dongle_rescue/repair/planner.py:125-210 | over every run of applications and rollbacks on any devices, with any bound drivers and loaded modules, a device's conf file holds the texts of its applications since its last rollback, in order, and exists if and only if its last event applied |
| `ConfFiles.AppendixLines` | src/dongle_rescue/repair/planner.py:155-158 | one application appends two lines, a comment and the stripped alias, which read as exactly the planned row |
| `ConfFiles.FileHoldsPlannedRows` | src/dongle_rescue/repair/planner.py:150-158 | after any run a device's conf file, read as an alias file, holds exactly the rows of its applications since its last rollback, in order |
| `ConfFiles.RunLeavesOthersAlone` | src/dongle_rescue/repair/transaction.py:91-113 | a run changes no file that belongs to none of its devices |
| `ConfFiles.RollbackIsIdempotent` | src/dongle_rescue/repair/transaction.py:91-113 | rolling a device back again changes nothing, whichever of its plans is used |
| `ConfFiles.RollbackUndoesApply` | src/dongle_rescue/repair/planner.py:150-179 | a rollback restores the files from before the application if and only if the conf file was absent |
| `ConfFiles.FileInjective` | src/dongle_rescue/repair/planner.py:150-179 | two devices share a conf file if and only if they share vid and pid |
| `Planner.PlannedTransaction` | src/dongle_rescue/repair/planner.py:150-179 | a planned transaction can be written to the journal and read back whole, and its rollback names the plan's conf file |
| `PlannerLaws.PlanExact` | src/dongle_rescue/repair/planner.py:57-148 | for every device: no entry, refusal by the first entry that lists the id, a plan for a module if and only if that is the first on offer and grammar-valid, or an exception |
| `PlannerLaws.PickExact` | src/dongle_rescue/repair/planner.py:125-132 | the module is the first non-empty one of bound driver, loaded module, preferred module and first new_id module |
| `PlannerLaws.PlanContents` | src/dongle_rescue/repair/planner.py:150-179 | a feasible plan's conf file, alias, and the four parts of its transaction key by key, and its id: the hash of the four canonical texts joined with bars |
| `PlannerLaws.IdExact` | src/dongle_rescue/repair/transaction.py:26-54 | every id hashes the canonical texts of before, change, after and rollback, in this order |
| `PlannerLaws.SharedIdExact` | src/dongle_rescue/repair/transaction.py:26-54 | as long as the hash tells texts apart, two transactions share an id if and only if they agree part by part |
| `PlannerLaws.PlansShareIdExactly` | src/dongle_rescue/repair/planner.py:66-179 | and two plans if and only if they are for the same vid, pid and module |
| `Planner.PlannedAliasClaimsDevice` | src/dongle_rescue/repair/planner.py:125-210 | the alias of a feasible plan is one row for the planned module that claims exactly the modaliases of this device's FF/FF/00 interfaces, in whatever spelling |
| `Paths.NormalAbsolute` | src/dongle_rescue/repair/transaction.py:98-101 | an absolute path equals its normalisation if and only if it is one or two slashes followed by proper components |
| `Paths.ProperIsNormal` | src/dongle_rescue/types.py:157 | proper components behind at most two slashes are a fixed point of normalisation |
| `FirmwarePath.RequireExact` | src/dongle_rescue/types.py:148-162 | exactly the non-empty, relative, backslash-free paths are accepted whose component walk never rises above its start and ends below it, NUL-free, on a first component not beginning with two dots; the result joins the kept components |
| `FirmwarePath.LastCheckNeverFires` | src/dongle_rescue/types.py:157-161 | no path that reaches the last check has an empty, dot or dot-dot part |
| `FirmwarePath.RequireIsIdempotent` | src/dongle_rescue/types.py:148-162 | the result is accepted unchanged and has proper components only |
| `FirmwarePath.AcceptedStaysUnderRoot` | src/dongle_rescue/types.py:148-162 | under any root an accepted path and its normal form lead to the same place, and no prefix of the walk leaves the root |
| `FirmwarePresence.ValidNameIsAccepted` | src/dongle_rescue/firmware/resolver.py:45-50 | every name the log grammar accepts is accepted by the path validator, so the presence check never raises |
| `FirmwarePresence.FwNameExact` | src/dongle_rescue/firmware/resolver.py:45-50 | the log grammar by components: at most 4096 characters, no empty component, none with two dots in a row, letters, digits, dots, underscores and hyphens only, the first one starting with a letter or digit |
| `FirmwarePresence.BareRootExact` | src/dongle_rescue/firmware/resolver.py:127 | stripping a root leaves what stands before its trailing slashes |
| `FirmwarePresence.BareRootExists` | src/dongle_rescue/firmware/resolver.py:127 | and every root is such a text with slashes behind it |
| `FirmwarePresence.PresenceExact` | src/dongle_rescue/firmware/resolver.py:86-163 | over the host's three answers alone: present if and only if the file or one of its two compressed forms is there with its real path inside the root, named by the first such form; unknown if and only if none is and some answer fails |
| `FirmwarePresence.CheckFirmwarePresence` | src/dongle_rescue/firmware/resolver.py:102-163 | rejected names are indeterminate; otherwise the verdict and the form are those the three host answers give, for the root without its trailing slashes |
| `FirmwarePresence.CheckForms` | src/dongle_rescue/firmware/resolver.py:128-163 | the loop with its early return and its indeterminate flag computes that disjunction |
| `FirmwarePresence.PresenceIsMonotone` | src/dongle_rescue/firmware/resolver.py:86-163 | replacing host failures by real answers never flips a definite verdict |
| `FirmwarePresence.ContainmentTestsAgree` | src/dongle_rescue/host.py:116-124 | on all normalised paths, with one leading slash or two, and every base but the root directory: with a single slash before the base the two tests agree unless the target is the base, or has two slashes and is at or under the base; with two before the base, unless the target has two as well and is under it |
| `FirmwarePresence.PrefixTestExact` | src/dongle_rescue/firmware/resolver.py:99 | the prefix test accepts exactly the targets strictly under the base with as many leading slashes |
| `FirmwarePresence.ComponentTestExact` | src/dongle_rescue/host.py:122-123 | the component test accepts exactly the targets at or under a base with a single leading slash |
| `FirmwarePresence.RootBaseSplitsTheTests` | src/dongle_rescue/host.py:116-124 | with the root directory as base one test raises on every absolute path and the other accepts it |
| `FirmwarePresence.DoubleSlashSplitsTheTests` | src/dongle_rescue/firmware/resolver.py:99 | an instance: at or under the base, a target with a doubled leading slash is inside for one test only |
| `Identification.ResolveDevice` | src/dongle_rescue/identification/resolver.py:40-161 | the loop that appends the entry's modules and the three outcomes |
| `Identification.ResolveFacts` | src/dongle_rescue/identification/resolver.py:40-161 | on every knowledge base: evidence is never empty, alias candidates mirror the claiming rows, and the chosen name is that of the entry found by USB id, or unknown |
| `Identification.ResolveExact` | src/dongle_rescue/identification/resolver.py:40-161 | everything identification answers: chipset, confidence, evidence and candidates, from the first entry that lists the id or from the claiming rows alone |
| `Identification.RowsForExact` | src/dongle_rescue/identification/resolver.py:52 | the rows that count are those that claim the device's modalias; without one there are none |
| `Identification.KbCandidatesInOrder` | src/dongle_rescue/identification/resolver.py:68-88 | the entry's unclaimed modules become candidates in its order, with its confidence |
| `Knowledge.FindByIdExact` | src/dongle_rescue/repair/planner.py:57-63 | the entry found by id is the first that lists it in any case, and none is found only when none does |
| `Knowledge.FindByNameExact` | src/dongle_rescue/diagnostics/classifier.py:55-59 | the entry found by name is the first of that name |
| `Identification.ResolvedNameFindsEntry` | src/dongle_rescue/identification/resolver.py:89-118 | with distinct chipset names, looking up the chosen chipset by name reaches the entry found by USB id |
| `Identification.CandidatesAreComplete` | src/dongle_rescue/identification/resolver.py:52-88 | the candidate modules are those of the claiming rows and those the entry lists; claims come first in file order, and no later candidate repeats one |
| `Diagnosing.DmesgFailures` | src/dongle_rescue/diagnostics/classifier.py:35-41 | the collecting loop over log lines |
| `Diagnosing.FindMissingFirmware` | src/dongle_rescue/diagnostics/classifier.py:135-150 | the search for the missing file: first matching log failure, then the first declared file's absence on disk |
| `Diagnosing.Classify` | src/dongle_rescue/diagnostics/classifier.py:62-318 | the classifier in its order of work computes the diagnosis that the laws below describe |
| `ClassifierTable.DiagnosisExact` | src/dongle_rescue/diagnostics/classifier.py:62-318 | for every case, in terms of the case alone: state, action, confidence, evidence and candidates; in the confirmed state C the file of the first failure that names a declared one, or else the absent first file, with the valid packages of the first owner and the first manager |
| `ClassifierTable.FailuresInOrder` | src/dongle_rescue/diagnostics/classifier.py:35-41 | failures come line by line in the order of the log |
| `ClassifierTable.DeclaredExact` | src/dongle_rescue/diagnostics/classifier.py:137 | a basename stands for the last declared file that has it |
| `ClassifierTable.LoggedExact` | src/dongle_rescue/diagnostics/classifier.py:138-142 | the file taken from the log is that of the first failure that names a declared one |
| `ClassifierTable.BasenameExact` | src/dongle_rescue/firmware/resolver.py:199 | the basename is what stands behind the last slash, or everything |
| `ClassifierTable.OwnerExact` | src/dongle_rescue/firmware/resolver.py:197-216 | the mapping is that of the first entry that declares the file or its basename |
| `ClassifierTable.CleanPackagesExact` | src/dongle_rescue/firmware/resolver.py:189-194 | packages are the entry's valid names in order |
| `DiagnosisLaws.ClassifyRefinesTable` | src/dongle_rescue/diagnostics/classifier.py:62-318 | the state is one whose declarative condition holds, and the highest-ranked of those: UNKNOWN, D, C, B or E, A |
| `DiagnosisLaws.MoreEvidenceNeverLowersRank` | src/dongle_rescue/diagnostics/classifier.py:109-150 | adding log lines, modprobe.d lines or modprobe.d files lowers the rank if and only if the state was D and a file with an empty path now blocks the module |
| `DiagnosisLaws.EmptyPathHidesBlock` | src/dongle_rescue/diagnostics/classifier.py:109-111 | a family of pairs of cases where that happens: one more file turns state D into state A |
| `DiagnosisLaws.DmesgOrderIsIrrelevant` | src/dongle_rescue/diagnostics/classifier.py:133-172 | reordering or repeating log lines never changes the state |
| `DiagnosisLaws.BlockedCitesLeastPath` | src/dongle_rescue/diagnostics/classifier.py:44-52 | state D cites the lexicographically least path with a line blocking the primary module |
| `DiagnosisLaws.InsertionOrderIsIrrelevant` | src/dongle_rescue/diagnostics/classifier.py:44-131 | the whole diagnosis is independent of the insertion order of the modprobe.d files |
| `DiagnosisLaws.LineBlocksOneModule` | src/dongle_rescue/diagnostics/classifier.py:48-51 | one line blocks one module at most |
| `DiagnosisLaws.CommentedLineBlocks` | src/dongle_rescue/diagnostics/classifier.py:48-51 | surrounding white space and a trailing comment do not keep either directive from blocking |
| `DiagnosisLaws.BlocksLineExact` | src/dongle_rescue/diagnostics/classifier.py:48-51 | a line blocks a module if and only if it holds one of the two directives for it, between white space and in front of a comment |
| `LogLines.LogLineNamesFile` | src/dongle_rescue/diagnostics/classifier.py:32-41 | a line is read as a file name and an error number if and only if their message stands in it, no message starts before it, and no shorter name would do |
| `LogLines.MessageText` | src/dongle_rescue/diagnostics/classifier.py:32 | the message and the error tail that these laws look for are the kernel's own words |
| `LogLines.PrintedFailureIsRead` | src/dongle_rescue/diagnostics/classifier.py:32-41 | in particular a message printed for any error number is read back as its name and that number |
| `DiagnosisLaws.ClassifierAndPlannerAgree` | src/dongle_rescue/repair/planner.py:66-179 | with distinct chipset names, in state B the action is bind_new_id if and only if the planner gets as far as building a plan, which succeeds if and only if the module it picks is grammar-valid |
| `DiagnosisLaws.AgreementIsExact` | src/dongle_rescue/repair/planner.py:57-98 | on every knowledge base, in state B classifier and planner agree if and only if the entry found by name and the entry found by id answer alike whether new ids are accepted |
| `DiagnosisLaws.NoPlanForUnknown` | src/dongle_rescue/repair/planner.py:76-96 | an unidentified device has no plan, unless its own entry bears the reserved name |
| `DiagnosisLaws.PlanWithoutDriver` | src/dongle_rescue/repair/planner.py:125-132 | in state E a plan is feasible if and only if the entry accepts new ids and the caller's loaded module is usable |
| `DiagnosisLaws.SharedNameDisagrees` | src/dongle_rescue/diagnostics/classifier.py:55-59 | an instance: when an entry that refuses new ids shadows the name of the device's entry, classifier and planner disagree |
| `DiagnosisLaws.ConfirmedFirmwareHasOwner` | src/dongle_rescue/firmware/resolver.py:197-216 | in the confirmed state C the package lookup always finds an owning entry |
| `DiagnosisLaws.DiagnosisIsBackedByEvidence` | src/dongle_rescue/diagnostics/classifier.py:84-318 | on every knowledge base, every diagnosis of a resolved device carries evidence, and so does its action |
| `Pnputil.Parser.Flush` | src/dongle_rescue/windows/enum_ps.py:69-82 | emits the open device if its id is non-empty, and closes it in any case |
| `Pnputil.Parser.ReadLine` | src/dongle_rescue/windows/enum_ps.py:84-112 | one line's effect on the device list and the open device |
| `Pnputil.ParseOutput` | src/dongle_rescue/windows/enum_ps.py:60-114 | the line-driven state machine, final flush included |
| `Pnputil.BlankSeparates` | src/dongle_rescue/windows/enum_ps.py:86-88 | parsing is a homomorphism at blank lines |
| `Pnputil.InstanceSeparates` | src/dongle_rescue/windows/enum_ps.py:93-95 | and in front of an Instance ID line |
| `Pnputil.DeviceCount` | src/dongle_rescue/windows/enum_ps.py:60-114 | there are as many devices as Instance ID lines with a non-empty value |
| `PnputilRoundTrip.PrintParses` | src/dongle_rescue/windows/enum_ps.py:60-114 | any list of well-formed devices printed in the documented format parses back to it, hardware ids in upper case |
| `PnputilRoundTrip.FieldExact` | src/dongle_rescue/windows/enum_ps.py:53 | a line is read as a field if and only if it is spelled as a key, a colon, tabs and a rest, and then as that key and rest without outer white space |
| `PnputilBlocks.BlockExact` | src/dongle_rescue/windows/enum_ps.py:69-113 | a block becomes one device, if its id is not empty, with the last value given for every known key; other lines change nothing |
| `PnputilBlocks.IdsExact` | src/dongle_rescue/windows/enum_ps.py:100-107 | ids are set apart by spaces, each one stripped and put in upper case, and blank ones dropped |
| `PnputilBlocks.ProblemExact` | src/dongle_rescue/windows/enum_ps.py:108-110 | a problem code is the number all digits of the value make together |
| `KernelRelease.ComputeKey` | src/dongle_rescue/linux/log_access.py:111-120 | the loop that builds the key of a release |
| `KernelRelease.ReleaseKey` | src/dongle_rescue/linux/log_access.py:111-120 | a release printed from version numbers, abi number and flavour is read back as these numbers |
| `KernelRelease.ReleaseExact` | src/dongle_rescue/linux/log_access.py:111-120 | for every release: each dotted part in front of the first hyphen, and the part behind it, is its number or -1 |
| `KernelRelease.StrictWeakOrder` | src/dongle_rescue/linux/log_access.py:105-125 | irreflexive and transitive, and two releases are incomparable if and only if their keys are equal |
| `KernelRelease.NonNumericNeverExceeds` | src/dongle_rescue/linux/log_access.py:105-125 | a release without a leading number never exceeds one with it, and is always exceeded by it |
| `KernelRelease.UnnumberedCompare` | src/dongle_rescue/linux/log_access.py:105-123 | when one of two releases lacks a leading number: the candidate exceeds the baseline if and only if the baseline lacks it and the candidate has one or has the greater rest of the key |
| `KernelRelease.UnnumberedRunningIsOutdated` | src/dongle_rescue/linux/log_access.py:88-97 | under a running release without a leading number every numbered release on disk gives the newer-kernel signal |
| `KernelRelease.NonNumericMayExceedItsKind` | src/dongle_rescue/linux/log_access.py:105-110 | an instance of two releases without a leading number where one exceeds the other |
| `KernelRelease.EqualLengthCompare` | src/dongle_rescue/linux/log_access.py:111-123 | with versions of equal length the version decides, then the abi number |
| `KernelRelease.ShorterVersionCompare` | src/dongle_rescue/linux/log_access.py:111-123 | a version continued by the other has its abi number compared with the next version number |
| `KernelRelease.LongerVersionCompare` | src/dongle_rescue/linux/log_access.py:111-123 | the mirrored case |
| `KernelRelease.FlatKeyIsVersionOrder` | src/dongle_rescue/linux/log_access.py:111-123 | for all releases: the flat key orders two of them by version, then abi number, if and only if, where one version continues the other, the abi number of the shorter does not exceed the number the longer continues with |
| `KernelRelease.NewestExists` | src/dongle_rescue/linux/log_access.py:88-91 | every non-empty set of releases has one that no other exceeds |
| `KernelRelease.NewerSignalExact` | src/dongle_rescue/linux/log_access.py:66-102 | the newer-kernel signal is given if and only if an installed release exceeds the running one, and names exactly those; without it the marker decides; running a newest one always clears it |

## Left out

- I/O: `RealHost`, sysfs and /proc reads, clocks and `platform.release`; the host is a function parameter, and `bound_driver` and `interface_modalias` are not modelled.
- `cli/main.py`, `verification/checker.py`, PowerShell and pnputil command builders, `build_install_command` and package-manager detection: text layout, thin string building and short conjunctions of flags.
- SHA-256 itself; the contents of chipsets.json (the knowledge base is an arbitrary typed value, so entries with wrongly typed fields are not covered); explanation strings, notes, revision notes, evidence wording and `to_dict` layouts other than the journal record's.
- `_as_rows` on a list that mixes rows with lines: only lists of lines are modelled.
- `parse_dmesg_firmware_failures` and `resolve_module_firmware`: the same expression and the same presence check once more, collected into a report.
- Case mapping and decimal digits outside ASCII. White space and line breaks are those of Unicode.
- Floats are not written (the program writes none); the parser accepts them and keeps their source text, so a literal that overflows, underflows to zero or is rounded is not told apart.
- Python's limits on recursion depth and on the digits of an integer; universal-newline translation when the journal is read (the written text holds no carriage return).
- A partial write: an append either extends the file by the whole line or does not happen.
- PnputilRoundTrip.PrintParses: problem codes are plain decimal numbers, because the parser joins all digit runs of a value.
- FirmwarePresence.ContainmentTestsAgree: of `firmware_exists`, only the containment test is modelled.
