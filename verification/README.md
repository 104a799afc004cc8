# Verified models of the HPDC services and tools

Dafny models of the parts of the repository that hold real algorithms, lifted out of their files
and sockets, with proofs of what those parts are for. `dafny verify dfyconfig.toml` checks
everything. One module stands for one source file or one component of it:

- `memlog.dfy`: the frontmatter-and-body text format of the memlog script, its parser and
  printer, and the commands `init`, `append` and `set` as steps on the file.
- `config_merge.dfy`: the layered TOML merge of the two resolver scripts: keyed arrays, deep
  merge, dotted lookup, and the folds over three and four layers.
- `associativity.dfy`: for any two layers, when their bracketing with a third one does not matter.
- `entity_log.dfy`: the entity store whose mutations are recorded with field diffs in a log, with
  single and bulk commands.
- `chunked.dfy`: decoding of the chunked transfer coding (section 7.1 of RFC 9112), with an
  encoder as specification.
- `mirror.dfy`: the resumable, digest-checked download in byte ranges (section 14.1.2 of
  RFC 9110) against an arbitrary server, and the loop that fetches each blob of an image once.
- `ulid.dfy`, `edge.dfy`: ULID text (Encoding and Sorting sections of the ULID specification),
  the alert pipeline, and the back-pressure counters of the edge service.
- `doc_store.dfy`: documents with revisions, optimistic locking and one store per region.
- `telemetry.dfy`, `envelopes.dfy`, `run_accounting.dfy`: interpolated percentiles, the generated
  messages with their idempotency keys, and the counters of a run that stops at its first failure.
- `catalog.dfy`, `image_lines.dfy`, `images.dfy`: environment files and the image catalog, the line
  pattern for image references, and the line rewriter that puts the catalog's tags in.
- `text.dfy`, `seqs.dfy`, `arithmetic.dfy`, `json_values.dfy`: Python's string operations, sequences
  without repetition, powers and remainders, and JSON values, as far as the others need them.

Handlers and commands are atomic steps over parsed requests. Clocks, random bytes, digests, the
configuration and the network are parameters: a digest is any function at all, a server is any
function of the request number and the byte range, a live emission may have any outcome. Where
the source updates an object in place, the model is a class whose methods are proved against a
function from the old state to the new one, and the theorems are about that function over all runs. Beside
each such function stand lemmas that say what it computes without it: field by field, digit by digit
or character by character, with the constants of the source written out.

What the proofs found about the code:

- The memlog round trip holds exactly for clean fields and bodies (`Memlog.RoundTripIffClean`). A
  body with a line break other than a newline does not come back. `set` takes its key unstripped,
  so a key with a line that is exactly the fence cuts the frontmatter off; values cannot do that.
- Folding layers is associative under a schema (`ConfigMerge.MergeAssociative`). Keys need not be
  distinct. Without a schema, `Associativity.AssociatesIff` says for any two layers when they
  associate below every third one, and for all others there is a layer that tells the bracketings
  apart. Arrays merged by `id` whose items all come out with a `code` are one such case, since a
  later merge then keys them by `code` (`Associativity.IdArraysAssociateIff`).
- The mutation log replays to the store after any run, but a `create` over an existing entity is
  recorded as if from nothing, so it is the one record that cannot be undone
  (`EntityLog.RewindsIffNotOverwriting`). Bulk commands record updates and deletes of missing
  entities that single commands do not (`EntityLog.BulkRefinesSingles`), and do not check the
  entity type (`EntityLog.ItemAgreesWithSingleIff`, `EntityLog.BulkStoresUnknownTypes`).
- The chunk decoder accepts negative sizes. It goes on for ever exactly when it comes to some place
  of the payload twice, which one turn per byte and one more decide (`Chunked.StopsIff`). Sizes down
  to -5 take it forward (`Chunked.SmallStepsStop`); -6 may not (`Chunked.NegativeSizeMayNeverStop`).
- A write that fails after the last byte of a chunk has reached the file leaves the remaining
  attempts asking for an empty range, so the download fails with the chunk, perhaps the whole blob,
  in the part file. Otherwise one answer in twelve is enough (`Mirror.BlobArrivesIff`,
  `Mirror.WholeBlobIsStuck`).
- A blob of length 0 that has no part file ends in a missing-file error (`Mirror.NoPartFileIff`), and
  a blob without a Content-Length is returned unchecked (`Mirror.DownloadIsChecked`).
- The same `_rev` can win twice once the document has been created anew
  (`DocStore.SameRevWinsAfterRecreation`): exactly when it has had as many updates again
  (`DocStore.SameRevIff`, `DocStore.RevWinsIff`).
- A failed run reports the error rate 0 exactly when its first envelope was malformed or its
  errors are too few for six decimals (`RunAccounting.FailedRunReportsZeroIff`).
- Image rewriting is idempotent exactly when every catalogued tag is settled, that is, cannot be
  read as a shorter tag with a comment behind it (`Images.IdempotentIff`, `Images.Settles`); a tag
  such as `v1 #x` grows with every pass. The order "longest name first" does not matter, because
  names are compared whole (`Catalog.OrderDoesNotMatter`).
- The documentation of `load_dotenv` says that the last assignment of a file wins; the code lets
  the first non-empty one win, within a file and across files, and the model follows the code
  (`Catalog.LoadDotenv`, `Catalog.LastAssignmentLoses`).

## Model

| member | source | states |
|---|---|---|
| `Memlog.Split` | `_bmad/scripts/memlog.py:90-107` | the parser with its search for the closing fence and its field loop returns the dictionary in source order and the body, or says which fence is missing |
| `Memlog.RoundTripIffClean` | `_bmad/scripts/memlog.py:90-113` | printing and parsing give a document back if and only if its keys are distinct, stripped, colon-free single lines, its values stripped single lines, and its body has no outer newline and no other line break |
| `Memlog.StableAfterOnePass` | `_bmad/scripts/memlog.py:110-113` | with any values at all, one print and parse normalises them, and the document is stable from then on |
| `Memlog.Reopens` | `_bmad/scripts/memlog.py:90-113` | whatever text was read, writing it back and reading again loses nothing but trailing newlines |
| `Memlog.ParseIsClean` | `_bmad/scripts/memlog.py:97-107` | whatever is read has a clean dictionary and a body of plain newlines that does not start with one |
| `Memlog.BodySurvivesIffFenceFree` | `_bmad/scripts/memlog.py:93-113` | for any fields and any body, the body survives printing and parsing if and only if no line of the printed fields is exactly the fence |
| `Memlog.HiddenFenceLeaks` | `_bmad/scripts/memlog.py:93-113` | a fence hidden in the fields always makes the body that is read longer |
| `Memlog.TouchPutsUpdatedLast` | `_bmad/scripts/memlog.py:116-119` | the stamp is the last field, exactly once, and the other fields do not move |
| `Memlog.FlatJoins` | `_bmad/scripts/memlog.py:112` | a value is written on one line, its lines joined by blanks |
| `Memlog.FileIsText` | `_bmad/scripts/memlog.py:110-113` | with values on one line and a body without a trailing newline, the file is `---`, one line `key: value` for each field, `---`, an empty line, and the body |
| `Memlog.ParseAnswers` | `_bmad/scripts/memlog.py:96-107` | a text is read if and only if its first line is `---` and another one is; which of the two is missing decides the error |
| `Memlog.DropsNewlines` | `_bmad/scripts/memlog.py:107` | the newlines in front of the body are dropped and nothing else |
| `Memlog.EntryCountOf` | `_bmad/scripts/memlog.py:132-133` | a body made of n entries is counted as n |
| `Memlog.CountsEntryLines` | `_bmad/scripts/memlog.py:132-133` | whatever the lines are, the count is the number of those that start with a dash and a blank |
| `Memlog.AppendWritesWords` | `_bmad/scripts/memlog.py:164-177` | for any words without white space, with any white space before, between and behind them, appending them to a file of entries adds the one line `- `, the tag, and the words with single blanks; the tag is `(kind) `, `(by author) `, `(kind by author) ` or empty |
| `Memlog.LabelIs` | `_bmad/scripts/memlog.py:168-171` | the label is the kind alone, `by` and the author, or both with `by` between them |
| `Memlog.AppendAddsOneLineIff` | `_bmad/scripts/memlog.py:164-177` | an append adds exactly one line to a body of entries if and only if its label, after stripping, is on one line |
| `Memlog.MemlogFile.Init` | `_bmad/scripts/memlog.py:145-161` | refuses an existing file and a malformed field without writing, and otherwise writes the stamped fields and an empty body |
| `Memlog.InitReads` | `_bmad/scripts/memlog.py:151-157` | each argument is cut at its first `=`, and key and value, stripped, are the fields in the order of the arguments |
| `Memlog.InitRefusesIff` | `_bmad/scripts/memlog.py:152-155` | `init` refuses its arguments if and only if one has no `=` |
| `Memlog.MemlogFile.Append` | `_bmad/scripts/memlog.py:164-177` | writes the body with the entry behind it and the stamp last, acknowledges the new count, and leaves an unreadable file alone; `Memlog.AppendWritesWords` says what the entry is |
| `Memlog.MemlogFile.Set` | `_bmad/scripts/memlog.py:180-187` | writes the field and the stamp, keeps the body, and leaves an unreadable file alone |
| `Memlog.SetKeepsBodyIff` | `_bmad/scripts/memlog.py:180-187` | on any file with a clean body, `set` keeps the body if and only if no line of the key before its last is the fence, whatever the value |
| `Memlog.StepReads` | `_bmad/scripts/memlog.py:164-187` | one command, read back: the new entry is the last line, the field is in the dictionary, the stamp is last, and earlier entries are untouched |
| `Memlog.RunIsAppendOnly` | `_bmad/scripts/memlog.py:164-187` | over any run of appends with single-line labels and sets with single-line colon-free keys, every command succeeds, the old entries stay in front, the new ones follow in order, and the count is their number |
| `Memlog.BodyIsAppendOnly` | `_bmad/scripts/memlog.py:164-187` | the same for the body over any run whose sets have keys that hide no fence, whatever else is in keys and values |
| `Memlog.InitThenRun` | `_bmad/scripts/memlog.py:145-187` | after `init` and any such run the body has exactly one entry line for each append |
| `Memlog.FieldsKeepTheirOrder` | `_bmad/scripts/memlog.py:116-187` | after any run the stamp is the last field and the other fields keep their order |
| `Memlog.FieldsAreLastSet` | `_bmad/scripts/memlog.py:97-187` | after any run `updated` is the time of its last command, and any other field is the value of its last `set`, on one line and stripped, or as before if there was none |
| `Memlog.NormalOfEdit` | `_bmad/scripts/memlog.py:97-119` | setting and stamping a field, printed and parsed, is the same edit on normalised strings |
| `ConfigMerge.MergeByKey` | `_bmad/scripts/resolve_customization.py:115-138` | the two loops with their index map compute the keyed merge: each override item replaces the last item with its key or is appended; an identifier that cannot be hashed fails |
| `ConfigMerge.KeysOfMerge` | `_bmad/scripts/resolve_customization.py:115-138` | over distinct base keys and any keyed override, the keys of the merge are the base keys in place and then the new keys in order of first appearance, each once |
| `ConfigMerge.LastItemWins` | `_bmad/scripts/resolve_customization.py:115-138` | for every key, the last item in the merge is the last one given in base and override together, whatever duplicates there were |
| `ConfigMerge.KeylessAreAppended` | `_bmad/scripts/resolve_customization.py:115-138` | override items without the key are put behind the tables of the base, in order |
| `ConfigMerge.MergedItems` | `_bmad/scripts/resolve_customization.py:115-138` | over distinct base keys the merge has distinct keys, keeps base positions, and holds for each key the last item given |
| `ConfigMerge.PutAllAssociative` | `_bmad/scripts/resolve_customization.py:115-138` | keyed merging is associative, even with duplicate keys in any layer |
| `ConfigMerge.PutAllIdempotent` | `_bmad/scripts/resolve_customization.py:115-138` | merging a keyed array into itself changes nothing, even with duplicate keys |
| `ConfigMerge.ArraysMergeInSchema` | `_bmad/scripts/resolve_customization.py:98-149` | arrays of one schema are merged in the one way the schema says, without failing, into an array of that schema |
| `ConfigMerge.EmptyLayerIsNeutral` | `_bmad/scripts/resolve_customization.py:152-168` | a missing layer, read as an empty table, changes nothing on either side |
| `ConfigMerge.MergeKeepsSchema` | `_bmad/scripts/resolve_customization.py:152-168` | layers that obey a schema merge without failing into a layer that obeys it |
| `ConfigMerge.MergeAssociative` | `_bmad/scripts/resolve_customization.py:141-168` | for any three layers of one schema, merging left to right equals merging the last two first |
| `ConfigMerge.MergeIdempotentIff` | `_bmad/scripts/resolve_customization.py:98-168` | a layer merged into itself is unchanged if and only if every array reached through tables is empty, or keyed by identifiers that can be hashed |
| `ConfigMerge.FoldSplits` | `_bmad/scripts/resolve_config.py:161-163` | folding two stacks of layers apart and merging the results equals folding the whole stack |
| `ConfigMerge.BracketingIsFree` | `_bmad/scripts/resolve_config.py:161-163` | every bracketing of any number of layers of one schema gives the result of the fold |
| `Associativity.AssociatesIff` | `_bmad/scripts/resolve_customization.py:98-168` | for any two values: they associate below every third one if and only if they are of different kinds and the lower one is a scalar or an empty table, or both are scalars, or both are tables that merge and whose common fields associate in turn, or both are arrays that meet the next condition |
| `Associativity.ArraysAssociateIff` | `_bmad/scripts/resolve_customization.py:98-149` | two arrays associate below every third one if and only if they append, and: not keyed together, the upper one has items and is not keyed by itself; keyed by `code`, the upper one cannot be keyed by `id`, or fails both ways if so; keyed by `id`, neither has a `code` throughout |
| `Associativity.AppendsIff` | `_bmad/scripts/resolve_customization.py:115-149` | merging two arrays puts the upper behind the lower one if and only if they are not keyed together, or their identifiers can be hashed and those of the upper one are distinct and none of them is in the lower one |
| `Associativity.KindChangeBreaksIff` | `_bmad/scripts/resolve_customization.py:152-168` | for two layers of different kinds some third layer makes the result depend on the bracketing if and only if the lower one is an array or a table with fields |
| `Associativity.UnkeyedAssociateIff` | `_bmad/scripts/resolve_customization.py:98-149` | two arrays that are not keyed together associate below every third one if and only if the upper one has items and is not keyed by itself |
| `Associativity.MixedArraysBreakAssociativity` | `_bmad/scripts/resolve_customization.py:98-149` | two arrays that are appended, of which the upper one is keyed by itself, break with the upper one once more on top |
| `Associativity.IdArraysAssociateIff` | `_bmad/scripts/resolve_customization.py:98-149` | two arrays keyed by `id` associate above every array keyed by `id` if and only if some item without a `code` is left when the two are merged |
| `Associativity.CollapsingIdsBreakAssociativity` | `_bmad/scripts/resolve_customization.py:98-149` | arrays of which no such item is left exist, and break associativity |
| `ConfigMerge.ExtractKey` | `_bmad/scripts/resolve_customization.py:171-179` | the loop over the parts of a dotted key finds the value at that path or says it is missing |
| `ConfigMerge.LookupCommutesIff` | `_bmad/scripts/resolve_customization.py:152-179` | looking a path up in a merge equals merging the two lookups if and only if it is not the case that the override cuts off a path the base has |
| `ConfigMerge.BasePathSurvivesIff` | `_bmad/scripts/resolve_customization.py:152-179` | a base path is still there after the merge if and only if the override has no non-table at a proper prefix of it |
| `ConfigMerge.ScalarOverrideWins` | `_bmad/scripts/resolve_customization.py:152-179` | a scalar of the override is what its path has in the merge, whatever the base has there |
| `ConfigMerge.Resolve` | `_bmad/scripts/resolve_customization.py:224-236` | `main` folds the layers lowest first and returns the whole or exactly the requested keys that exist |
| `EntityLog.ComputeChangeDiff` | `scripts/services/entity-api.py:78-84` | the loop over the keys of both entities collects exactly the fields that `get` can tell apart |
| `EntityLog.DiffLeadsForward` | `scripts/services/entity-api.py:78-84` | applying a diff to the entity before gives the entity after, up to null fields |
| `EntityLog.DiffLeadsBack` | `scripts/services/entity-api.py:78-84` | undoing a diff on the entity after gives the entity before, up to null fields |
| `EntityLog.EmptyDiffIff` | `scripts/services/entity-api.py:78-84` | a diff is empty if and only if `get` cannot tell the two entities apart |
| `EntityLog.CreateStores` | `scripts/services/entity-api.py:104-126` | a create is refused with 400 for an unknown type, with 403 and one record for an actor whose role is not allowed it, ends in an exception for data that is no object, and otherwise exits with 0: the document stored has every field of the data with its value and no other, but for the two address fields, which are the address; no other address changes; and one success record says for exactly the fields that read differently what each was and becomes |
| `EntityLog.UpdateStores` | `scripts/services/entity-api.py:150-177` | the same for updates, with 404 for a missing entity; the document sent takes the place of the old one, and the record compares the two |
| `EntityLog.DeleteErases` | `scripts/services/entity-api.py:180-204` | the same for deletes: the entity is gone, no other changes, and the record compares it with nothing |
| `EntityLog.ItemStores` | `scripts/services/entity-api.py:227-254` | the same for one bulk item, which does not look at the type, records an update of a missing entity as not found and an unknown operation as such, and a delete of a missing entity as a success |
| `EntityLog.BulkAnswers` | `scripts/services/entity-api.py:207-226` | a bulk command is refused with 400 for its form or length, changes no entity when an item is not allowed, and otherwise runs its items |
| `EntityLog.ItemsInTurn` | `scripts/services/entity-api.py:227-254` | the items take their turns in order, and the first exception ends the command with what was stored until then |
| `EntityLog.LastItemDecides` | `scripts/services/entity-api.py:227-254` | when all items of a bulk command go through, the last one that names an address decides what is there: its document after a create, its document or nothing after an update, nothing after a delete |
| `EntityLog.EntityApi.CreateEntity` | `scripts/services/entity-api.py:104-126` | new store, log and exit code of every branch: unknown type, unauthorized, malformed data, saved; `EntityLog.CreateStores` says what is saved and recorded |
| `EntityLog.EntityApi.UpdateEntity` | `scripts/services/entity-api.py:150-177` | the same for updates, with the missing entity; `EntityLog.UpdateStores` says what is saved and recorded |
| `EntityLog.EntityApi.DeleteEntity` | `scripts/services/entity-api.py:180-204` | the same for deletes |
| `EntityLog.EntityApi.ExecuteItem` | `scripts/services/entity-api.py:228-254` | one item of the executing loop, with its records for missing entities and unknown operations; `EntityLog.ItemStores` says what is saved and recorded |
| `EntityLog.EntityApi.BulkOperations` | `scripts/services/entity-api.py:207-257` | first all items are authorized, then executed in order up to the first exception; `EntityLog.BulkAnswers` and `EntityLog.LastItemDecides` say what comes of it |
| `EntityLog.StepReplays` | `scripts/services/entity-api.py:87-257` | every command, refused, failing or ending in an exception, keeps log and store in step |
| `EntityLog.LogReplaysToStore` | `scripts/services/entity-api.py:78-257` | after any run of commands from the empty store, replaying the success records rebuilds the store: same addresses, same `get` value of every field |
| `EntityLog.RewindsIffNotOverwriting` | `scripts/services/entity-api.py:104-204` | undoing the last record from its diff alone gives the previous store, for updates and deletes always, for creates if and only if nothing was overwritten |
| `EntityLog.StepIsLawful` | `scripts/services/entity-api.py:48-52` | the log only grows, every new success record is of an operation the actor's role allows, and an entity differs only if such a record names it |
| `EntityLog.GateOpensIff` | `scripts/services/entity-api.py:217-226` | a bulk command gets past authorization if and only if every item is authorized |
| `EntityLog.BulkRefinesSingles` | `scripts/services/entity-api.py:104-257` | a bulk command whose items could be sent singly leaves the same entities as the single commands in order, and exactly one record per item in order; the single commands leave the same records but for updates and deletes of nothing |
| `EntityLog.ItemAgreesWithSingleIff` | `scripts/services/entity-api.py:104-257` | an authorized create, update or delete leaves the same entities in bulk and singly if and only if its entity type is known or there is nothing to change: the address already holds the document, or, for an update or delete, nothing |
| `EntityLog.BulkStoresUnknownTypes` | `scripts/services/entity-api.py:207-257` | every authorized bulk create of an unknown entity type is stored, where the single command refuses it with 400 |
| `EntityLog.RefusedBulkChangesNothing` | `scripts/services/entity-api.py:217-226` | the first item that is not allowed refuses the whole: no entity changes and exactly one record, for that item, is appended; an item that is no object ends the command with an exception and no record |
| `Chunked.Dechunk` | `scripts/services/git-smart-http.py:22-35` | the loop, with Python's slices and indices, returns what its turns come to when they stop, says that they go on for ever exactly when they do, and returns what the chunks say when no size is negative; `Chunked.TurnReads` says what a turn does |
| `Chunked.SizeIsNumeral` | `scripts/services/git-smart-http.py:30` | a size text is read as a number if and only if it is blanks around an optional sign, an optional `0x` with an optional underscore, and digits, single underscores among them, that spell the number in base sixteen: the last digit is that of the remainder by 16, and those before it spell the quotient |
| `Chunked.HexOfSpells` | `scripts/services/git-smart-http.py:30` | the numeral of any number, made of its remainders by 16 over the digits `0123456789abcdef` or `0123456789ABCDEF`, spells it |
| `Chunked.PiecesComeBack` | `scripts/services/git-smart-http.py:22-35` | a body sent in any pieces, each behind the numeral of its length in small or capital digits, comes back, whatever follows the last chunk |
| `Chunked.TurnReads` | `scripts/services/git-smart-http.py:27-34` | one turn at any size line: no number is an error, zero stops, and any other number, below zero too, adds the bytes that Python slices and moves the index on by the line, the number and four |
| `Chunked.PythonSlices` | `scripts/services/git-smart-http.py:29-33` | a slice with any two bounds: those below zero count from the end, those beyond an end mean that end |
| `Chunked.DecodeInvertsEncode` | `scripts/services/git-smart-http.py:22-35` | decoding inverts encoding for all chunks whose sizes spell the lengths of their data, in any digits, with leading zeros or without, with any extension without CR LF, any data, and any trailer |
| `Chunked.TruncationDecodesPrefix` | `scripts/services/git-smart-http.py:24-35` | any truncation of a valid encoding decodes to a prefix of the body |
| `Chunked.WholeChunk` | `scripts/services/git-smart-http.py:29-34` | one chunk in front of any bytes contributes its data and hands over to the rest |
| `Chunked.HeaderParses` | `scripts/services/git-smart-http.py:30` | a size with blanks and an extension behind it is read as the number it spells |
| `Chunked.StopsIff` | `scripts/services/git-smart-http.py:24-35` | the loop stops if and only if it has stopped after one turn per byte and one more, and goes on for ever if and only if it comes to some place of the payload twice |
| `Chunked.SmallStepsStop` | `scripts/services/git-smart-http.py:29-34` | it stops on every payload in which it meets no size below -5 |
| `Chunked.SmallStepForward` | `scripts/services/git-smart-http.py:26-34` | a size of -5 or more takes the loop strictly forward |
| `Chunked.DecoderStops` | `scripts/services/git-smart-http.py:24-35` | on a payload in which it meets no negative size it stops with what `Decode` says |
| `Chunked.LoopDecodes` | `scripts/services/git-smart-http.py:24-35` | without negative sizes, after any number of turns the loop has stopped with the body, or what it has and what remains make up the body |
| `Chunked.NegativeSizeMayNeverStop` | `scripts/services/git-smart-http.py:29-34` | the payload `-6` CR LF is not left by any number of turns, so -5 is the least size that is safe |
| `Mirror.Downloader.FetchChunk` | `scripts/services/mirror-image.py:76-92` | the twelve attempts, with the range fixed at the chunk's last byte, end in the part file, the requests and the success that the replies of the server determine |
| `Mirror.Downloader.FetchAll` | `scripts/services/mirror-image.py:73-92` | the same for the loop over the chunks |
| `Mirror.RetryGoesOn` | `scripts/services/mirror-image.py:76-92` | at most twelve requests for one chunk, all ending at its last byte, empty ranges among them; what is in the part file stays |
| `Mirror.FetchGoesOn` | `scripts/services/mirror-image.py:73-92` | at most twelve requests per chunk for the whole blob, none beyond its end; empty ranges, which begin one byte behind their end, can be asked for; what is in the part file stays |
| `Mirror.FetchKeepsPrefix` | `scripts/services/mirror-image.py:73-92` | if no reply of the right length is wrong, the part file is a prefix of the blob, whatever breaks off |
| `Mirror.CompleteIsStuck` | `scripts/services/mirror-image.py:76-92` | once all bytes of a chunk are in the file without success, a server that does not answer empty ranges with no bytes lets every remaining attempt fail |
| `Mirror.ChunkArrivesIff` | `scripts/services/mirror-image.py:76-92` | attempts of which one is answered in full bring the chunk if and only if no write breaks off after the chunk's last byte; else they fail with the whole chunk in the file |
| `Mirror.PassArrivesIff` | `scripts/services/mirror-image.py:73-92` | the same for a pass over all chunks, if one request in twelve is answered in full |
| `Mirror.PassNeverBreaksOff` | `scripts/services/mirror-image.py:82-91` | no pass breaks off so if writes never fail once all their bytes are in the file |
| `Mirror.Downloader.Download` | `scripts/services/mirror-image.py:63-100` | the two passes end in the part file, the requests and the result that the server and the digest determine; `Mirror.VerifiedIff` and the three lemmas behind it say which |
| `Mirror.DownloadIsChecked` | `scripts/services/mirror-image.py:63-100` | verified bytes have the digest they are fetched under, even if the server lies; bytes get through unchecked if and only if a pass that is reached has no Content-Length; bytes of an unfinished first pass are kept and wrong ones removed |
| `Mirror.VerifiedIff` | `scripts/services/mirror-image.py:63-100` | bytes are delivered if and only if they have the digest, and the first pass ends with them, or it ends with bytes of another digest and the second pass, from no part file, ends with them |
| `Mirror.MismatchIff` | `scripts/services/mirror-image.py:92-98` | a mismatch is reported if and only if both passes end with bytes of another digest |
| `Mirror.StuckIff` | `scripts/services/mirror-image.py:74-91` | a stuck chunk is reported if and only if the first pass is stuck, or ends with bytes of another digest and the second one is stuck; the part file of that pass stays |
| `Mirror.BadDigestIff` | `scripts/services/mirror-image.py:71` | a digest without a colon is an error exactly once the length is known |
| `Mirror.ExpectedIs` | `scripts/services/mirror-image.py:71` | the hash expected is what stands behind the first colon |
| `Mirror.NoPartFileIff` | `scripts/services/mirror-image.py:70-93` | the missing part file arises exactly for a length of zero or less with no part file there, in a pass that is reached |
| `Mirror.RequestsAreBounded` | `scripts/services/mirror-image.py:63-100` | at most two passes, each of at most twelve requests for every four mebibytes, none for more than that |
| `Mirror.TruthfulDownload` | `scripts/services/mirror-image.py:63-100` | a truthful source needs one pass and ends with the blob, a stuck chunk, or, exactly for an empty blob without a part file, a missing file; the part file is a prefix of the blob throughout |
| `Mirror.BlobArrivesIff` | `scripts/services/mirror-image.py:63-100` | if the source also answers one request in twelve, the blob arrives if and only if no write breaks off after the last byte of a chunk; a blob of one missing chunk is then in the part file in full, and the download fails all the same |
| `Mirror.SecondPassDelivers` | `scripts/services/mirror-image.py:93-100` | after a first pass that ends with bytes of another digest, a second one over a truthful and reliable source delivers the blob if and only if no write breaks off after the last byte of a chunk |
| `Mirror.WholeBlobIsStuck` | `scripts/services/mirror-image.py:75-91` | every blob of one chunk whose first write breaks off after its last byte is stuck, with all of it in the part file |
| `Mirror.MirrorBlobs` | `scripts/services/mirror-image.py:153-163` | the digests are downloaded and pushed once, in order of first appearance, until one cannot be downloaded |
| `Mirror.PushedInTurn` | `scripts/services/mirror-image.py:153-163` | what is pushed are the first digests in turn, all of them if and only if no download fails, and otherwise all up to the one whose download fails; the bytes pushed under a digest have it, unless their length was not announced |
| `Mirror.ServingIsSound` | `scripts/services/mirror-image.py:63-100` | whoever serves every byte range of a blob under its digest, and refuses empty ranges, is such a source |
| `Mirror.SoundSourcesDeliver` | `scripts/services/mirror-image.py:63-163` | from truthful and reliable sources whose writes never fail at their end, every blob that is not empty is pushed under its digest |
| `Ulid.EncodeDigits` | `scripts/services/events-ingest.py:74-83` | the shifting loops produce the base-32 digits, most significant first |
| `Ulid.Generate` | `scripts/services/events-ingest.py:71-84` | ten characters of time and sixteen of the random number |
| `Ulid.UlidOf` | `scripts/services/events-ingest.py:71-84` | a ULID has 26 characters, all of the alphabet |
| `Ulid.CharacterAt` | `scripts/services/events-ingest.py:74-84` | each character is the letter of `0123456789ABCDEFGHJKMNPQRSTVWXYZ` for five bits of the number, the highest ones first |
| `Ulid.BytesInFront` | `scripts/services/events-ingest.py:79` | each random byte counts for 256 to the number of bytes behind it |
| `Ulid.DecodesIffFits` | `scripts/services/events-ingest.py:75-83` | n digits read back as the number if and only if it is below 32 to the n |
| `Ulid.UlidReadsBack` | `scripts/services/events-ingest.py:71-84` | the random part always reads back as the 80-bit number, the time part exactly for times below 2^50, so for all below 2^48 |
| `Ulid.DigitsSortIff` | `scripts/services/events-ingest.py:50` | texts of equal length are ordered exactly as their numbers |
| `Ulid.UlidsSortByTime` | `scripts/services/events-ingest.py:50-84` | two ULIDs are ordered as text exactly as their times, and by the random part within a millisecond |
| `Edge.EdgeServer.TelemetryBatch` | `scripts/services/events-ingest.py:148-169` | new counters and reply of every branch of the batch handler |
| `Edge.EdgeServer.SetLag` | `scripts/services/events-ingest.py:171-183` | new lag and drop counter |
| `Edge.EdgeServer.Create` | `scripts/services/events-ingest.py:210-240` | replay by source change, or a fresh record at `initial` with its idempotency entry and topic line |
| `Edge.EdgeServer.Transition` | `scripts/services/events-ingest.py:242-262` | the move and its history entry, or 404 or 409 without a change |
| `Edge.EdgeServer.CountOf` | `scripts/services/events-ingest.py:264-271` | 1 if the source change is known and 0 if not |
| `Edge.StepKeepsValid` | `scripts/services/events-ingest.py:148-271` | every idempotency entry names an existing alert, and every alert's history is a prefix of the four states with its state the last one reached |
| `Edge.NextRung` | `scripts/services/events-ingest.py:56-63` | an allowed move takes an alert exactly one state up |
| `Edge.TransitionIff` | `scripts/services/events-ingest.py:242-262` | a transition is made if and only if the alert is there and the target is the one of `acknowledged`, `investigating`, `resolved`, `closed` that follows as many as the alert has made; it is then the state and the last entry of the history, and nothing else changes; otherwise the answer is 404 or 409 |
| `Edge.CreateAnswers` | `scripts/services/events-ingest.py:196-240` | a post of a known source change is answered 200 with its alert and state, any other one 202 with a fresh alert at `initial`, its idempotency entry and its line on the topic |
| `Edge.RefusedIff` | `scripts/services/events-ingest.py:148-271` | when the answer is 401 and when 400; no error changes anything |
| `Edge.NeverRebound` | `scripts/services/events-ingest.py:218-238` | over any run an idempotency entry is never lost or bound to another alert |
| `Edge.SameAlertForSource` | `scripts/services/events-ingest.py:218-223` | after a first answer every later post of a source change gets the same alert with 200, or is refused, so 202 comes at most once |
| `Edge.CountIsCreations` | `scripts/services/events-ingest.py:264-271` | the count endpoint tells the number of accepted creations for a source change, which is 0 or 1 |
| `Edge.TopicHasOneLineEach` | `scripts/services/events-ingest.py:229-240` | over any run the topic grows by exactly one line per accepted creation and never loses one |
| `Edge.MovesClimbTheLadder` | `scripts/services/events-ingest.py:56-63` | over any run an alert's history has exactly the moves since its last creation, at most four, in the only order |
| `Edge.DropsAddUp` | `scripts/services/events-ingest.py:148-183` | over any run the drop counter is the sum of dropped counts plus one for each over-budget lag set |
| `Edge.LagIsLastSet` | `scripts/services/events-ingest.py:171-183` | the lag in force is the last one set |
| `Edge.BackoffCounts` | `scripts/services/events-ingest.py:159-168` | the back-off counter is the number of congested batches since the last uncongested one |
| `Edge.BatchesAreAccounted` | `scripts/services/events-ingest.py:148-169` | delivered and dropped add up to the count, nothing is dropped under a lag of 200000 ms and everything from there on, and the k-th batch since the last one under 50000 ms backs off 200 * 2^k ms |
| `DocStore.RevTellsRevision` | `scripts/services/entity-api-local.py:79-81` | equal revision strings have equal revision numbers, whatever the digest function and the ids |
| `DocStore.PutMerges` | `scripts/services/entity-api-local.py:177-203` | an update is answered 400 without a body, 404 for a document that is missing or of another tenant, 409 for a `_rev` that is not the current one; otherwise each field of the body but `_rev` has the body's value, every other field and `_rev` as a field are as before, the revision moves on by one, and the tenant and all other documents stay |
| `DocStore.PostStores` | `scripts/services/entity-api-local.py:134-146` | a document that is posted is stored as it is at revision 1, for the sender's tenant or else its company, and no other one changes; 400 without an id |
| `DocStore.RemoveRemoves` | `scripts/services/entity-api-local.py:205-214` | a delete removes the document, or is answered 404 when it is missing or of another tenant |
| `DocStore.FieldsHoldLastGiven` | `scripts/services/entity-api-local.py:45-76` | over any run a field of a document holds what the latest successful write that mentions it gave it, and is absent if there is none since the document was last created |
| `DocStore.EntityStore.Create` | `scripts/services/entity-api-local.py:45-55` | overwrites the record with revision 1 and returns its revision string |
| `DocStore.EntityStore.Update` | `scripts/services/entity-api-local.py:63-73` | a missing document or a stale revision is reported and changes nothing; a current one is merged and moved on by one revision; `DocStore.PutMerges` says how |
| `DocStore.EntityStore.Delete` | `scripts/services/entity-api-local.py:75-76` | removes the record, if there is one |
| `DocStore.EntityServer.StoreFor` | `scripts/services/entity-api-local.py:87-91` | finds or makes the store of the region, changing no region's documents |
| `DocStore.EntityServer.HandleCreate` | `scripts/services/entity-api-local.py:134-146` | new contents of all regions and reply |
| `DocStore.EntityServer.HandleUpdate` | `scripts/services/entity-api-local.py:177-203` | new contents of all regions and reply, with and without a revision; `DocStore.PutMerges` says what is in them |
| `DocStore.EntityServer.HandleDelete` | `scripts/services/entity-api-local.py:205-214` | new contents of all regions and reply |
| `DocStore.RegionsAreIsolated` | `scripts/services/entity-api-local.py:87-91` | a request for one region leaves every other region's store as it was |
| `DocStore.OwnRegionAnswers` | `scripts/services/entity-api-local.py:87-91` | the region a request names, or `default`, answers as a store on its own does |
| `DocStore.StoreHoldsLastWritten` | `scripts/services/entity-api-local.py:45-81` | over any run the stored revision string is the one in the latest reply to a successful write |
| `DocStore.UpdateSucceedsIff` | `scripts/services/entity-api-local.py:177-203` | over any run a revisioned update succeeds if and only if its `_rev` is the one returned by the latest successful write and its sender may see the document |
| `DocStore.RevisionCounts` | `scripts/services/entity-api-local.py:45-81` | over any run the revision is one more than the successful updates since the document was last created, and the revision string is the one of that number |
| `DocStore.SameRevIff` | `scripts/services/entity-api-local.py:45-81` | at two moments of a run a document has the same revision string if and only if it has had as many updates since its last creation |
| `DocStore.RevWinsIff` | `scripts/services/entity-api-local.py:177-203` | an update with the string of revision n succeeds, in whatever incarnation, if and only if the document is there for its sender and has had n - 1 updates since its creation |
| `DocStore.AtMostOneWinner` | `scripts/services/entity-api-local.py:63-73` | of the writers that hold the same `_rev` at most one succeeds within one incarnation |
| `DocStore.SameRevWinsAfterRecreation` | `scripts/services/entity-api-local.py:45-55` | across incarnations the same `_rev` can succeed twice |
| `Telemetry.PercentileOfPermutation` | `scripts/telemetry/telemetry_simulator.py:606-618` | a percentile does not depend on the order of the values |
| `Telemetry.PercentileIs` | `scripts/telemetry/telemetry_simulator.py:606-618` | where `k + w` is p of the way to the last position, the percentile is the value at position k of the ascending values and w of the way to the next one, to the nearest thousandth, halves to the even one |
| `Telemetry.SummaryIs` | `scripts/telemetry/telemetry_simulator.py:621-626` | p50 is the median, half way between the middle two of an even number of values; without values all three are 0 |
| `Telemetry.PercentileBetween` | `scripts/telemetry/telemetry_simulator.py:606-618` | a percentile lies between the rounded bounds of the values |
| `Telemetry.AtRankBetween` | `scripts/telemetry/telemetry_simulator.py:612-618` | before rounding it lies between the two values around its rank, and between the least and the greatest value |
| `Telemetry.PercentileMonotone` | `scripts/telemetry/telemetry_simulator.py:606-618` | a percentile grows with its argument, after rounding too |
| `Telemetry.PercentileSummary` | `scripts/telemetry/telemetry_simulator.py:621-626` | p50, p95 and p99 are in order for every list of latencies |
| `Envelopes.GenerateEnvelopes` | `scripts/telemetry/telemetry_simulator.py:563-588` | the loop returns the message of every sequence number in order, or the first number whose message is not acceptable |
| `Envelopes.AcceptableIff` | `scripts/telemetry/telemetry_simulator.py:591-603` | a generated message is acceptable if and only if its type and its region have a name and its encoding is not too long |
| `Envelopes.EnvelopeIs` | `scripts/telemetry/telemetry_simulator.py:563-572` | message n is from device n modulo the device count; its name is its type, its region with underscores for dashes, and its number in five digits or more; its key is the name and n |
| `Envelopes.DeviceIdTellsIndex` | `scripts/telemetry/telemetry_simulator.py:566-569` | different devices have different names, whatever their types and regions are called |
| `Envelopes.KeysAreDistinct` | `scripts/telemetry/telemetry_simulator.py:539-560` | no two messages of a run share an idempotency key |
| `Envelopes.SentInTurn` | `scripts/telemetry/telemetry_simulator.py:563-569` | after any number of messages each device has sent its full rounds, and those in front one more |
| `Envelopes.EvenLoad` | `scripts/telemetry/telemetry_simulator.py:563-569` | after any number of messages two devices differ by at most one |
| `RunAccounting.ExitFrom` | `scripts/telemetry/telemetry_simulator.py:759-783` | where a run stops: at the first envelope that is malformed or, in a live run, not delivered everywhere, and at its first failing protocol |
| `RunAccounting.ProtocolResult.Attempt` | `scripts/telemetry/telemetry_simulator.py:767-783` | one envelope on one protocol moves exactly the right counters |
| `RunAccounting.EmitEverywhere` | `scripts/telemetry/telemetry_simulator.py:767-783` | one envelope over all protocols up to the first failure, with the exact counters of every protocol in both cases |
| `RunAccounting.RejectEverywhere` | `scripts/telemetry/telemetry_simulator.py:763-766` | a malformed envelope is counted once on every protocol and changes nothing else |
| `RunAccounting.RunSimulation` | `scripts/telemetry/telemetry_simulator.py:748-813` | at every exit the counters of every protocol are those of a closed form that depends only on where the run stopped |
| `RunAccounting.ProtocolBalances` | `scripts/telemetry/telemetry_simulator.py:767-783` | at every exit each protocol of a live run has planned = accepted + connection failures + protocol failures, and one latency per accepted message |
| `RunAccounting.TotalsByExit` | `scripts/telemetry/telemetry_simulator.py:202-210` | the sums over all protocols, exactly, for each way a run can end |
| `RunAccounting.CountersByExit` | `scripts/telemetry/telemetry_simulator.py:759-783` | every counter of every protocol for each way a run ends; a failed emission counts as a connection failure or else as a failure of its own protocol |
| `RunAccounting.FailuresByExit` | `scripts/telemetry/telemetry_simulator.py:202-212` | a malformed envelope makes one schema failure a protocol; a failed emission makes one failure in all, of its kind |
| `RunAccounting.LatenciesAreEmitted` | `scripts/telemetry/telemetry_simulator.py:781-783` | the latencies of a protocol are those of its emissions, in order |
| `RunAccounting.AllLatencies` | `scripts/telemetry/telemetry_simulator.py:209-239` | the percentiles are taken over the latencies of all protocols |
| `RunAccounting.RateIs` | `scripts/telemetry/telemetry_simulator.py:242` | the error rate is the quotient to the nearest millionth, halves to the even one, and 0 without messages |
| `RunAccounting.ExitStatusIff` | `scripts/telemetry/telemetry_simulator.py:213-243` | the exit status is 0 if and only if every envelope was well-formed and, in a live run, delivered over every protocol |
| `RunAccounting.ErrorRateInUnit` | `scripts/telemetry/telemetry_simulator.py:213-242` | the reported error rate lies between 0 and 1 |
| `RunAccounting.FailedRunReportsZeroIff` | `scripts/telemetry/telemetry_simulator.py:213-243` | a failed run reports the rate 0 if and only if its first envelope was malformed or it had at most one error in two million messages |
| `Catalog.LoadDotenv` | `scripts/gitops/component_versions.py:39-66` | every variable gets the value of the environment, or else of its first non-empty assignment in the order of files and lines |
| `Catalog.AssignmentReads` | `scripts/gitops/component_versions.py:55-66` | a line `key=value`, exported or not, bare or in either quotes, with a comment or without, assigns exactly that value to that key |
| `Catalog.NothingAssigned` | `scripts/gitops/component_versions.py:57-59` | a blank line, a comment, and a line without `=` assign nothing |
| `Catalog.EmptyAssignsNothing` | `scripts/gitops/component_versions.py:62-66` | nor does a line with an empty value, quoted or not |
| `Catalog.QuotesStripped` | `scripts/gitops/component_versions.py:64` | all quotes of one kind around a value are taken off |
| `Catalog.LastAssignmentLoses` | `scripts/gitops/component_versions.py:55-66` | of any two plain assignments to one variable in a file, in any spelling and with any lines between, the first one wins |
| `Catalog.FirstFileWins` | `scripts/gitops/component_versions.py:51-66` | of several files the first one with an assignment decides, and unreadable files are passed over |
| `Catalog.ResolveCopies` | `scripts/gitops/component_versions.py:297-304` | template text without braces is copied, and is all of the result when nothing follows |
| `Catalog.ResolveReplaces` | `scripts/gitops/component_versions.py:297-304` | a placeholder is replaced by its value and fails when there is none |
| `Catalog.BraceIsCopied` | `scripts/gitops/component_versions.py:297-304` | a brace that does not open a name of small letters and underscores with a brace behind it is copied |
| `Catalog.SubstitutionMap` | `scripts/gitops/component_versions.py:451-460` | the nested loops fail if and only if some template of the catalog cannot be resolved, and otherwise give every repository the reference of its first entry |
| `Catalog.FlattenInOrder` | `scripts/gitops/component_versions.py:456-457` | the entries are taken component by component, in the order of the catalog |
| `Catalog.OrderDoesNotMatter` | `scripts/gitops/render_overlays.py:60-61` | sorting the map longest name first does not change what a name is mapped to |
| `Catalog.LongestFirstIs` | `scripts/gitops/render_overlays.py:61` | names come longest first, and those of one length in the order of the map |
| `ImageLines.MatchIff` | `scripts/gitops/render_overlays.py:29-31` | the pattern matches a line with given groups if and only if they have the shapes of the groups and make up the line, so it can be read in one way only |
| `ImageLines.MatchReads` | `scripts/gitops/render_overlays.py:29-31` | the pattern matches with given groups if and only if the line is blanks, perhaps a dash and blanks, `image:`, blanks, and a repository and a tag around a colon in quotes of one kind or none, then perhaps blanks and a comment, and a newline at most |
| `Images.Replace` | `scripts/gitops/render_overlays.py:64-73` | the search through the catalog gives the line and the change that the catalog's entry for the repository asks for |
| `Images.SubstituteImages` | `scripts/gitops/render_overlays.py:53-76` | every line rewritten on its own, with all changes in order |
| `Images.RewritesLineByLineIff` | `scripts/gitops/render_overlays.py:75-76` | the lines of the new text are the old lines, each rewritten, if and only if each rewritten line is one line |
| `Images.RewritesLineByLine` | `scripts/gitops/render_overlays.py:75-76` | so it is whenever the tags put in are on one line |
| `Images.NoChangeIff` | `scripts/gitops/render_overlays.py:53-76` | for any text and any catalog, the list of changes is empty if and only if the text stays as it is |
| `Images.SameLineIff` | `scripts/gitops/render_overlays.py:64-73` | a line records a change if and only if it is changed |
| `Images.OnlyTheTagChanges` | `scripts/gitops/render_overlays.py:64-73` | with clean tags in the catalog, a line without a catalogued image stays as it is, and the pattern reads a rewritten line as the old one with the catalog's tag, so nothing outside the tag changes; the recorded change is that repository with its old and new tag |
| `Images.TagIsReplaced` | `scripts/gitops/render_overlays.py:64-73` | whatever the catalog has behind the first colon of a reference is put in the place of the tag, and nothing else of the line changes; the recorded change is the repository with both tags |
| `Images.ChangesInOrder` | `scripts/gitops/render_overlays.py:63-76` | changes are recorded in the order of the lines |
| `Images.OtherLinesStay` | `scripts/gitops/render_overlays.py:64-74` | a line that the pattern does not read, or whose repository is not in the catalog, stays as it is |
| `Images.TagsAreTheCatalogsIff` | `scripts/gitops/render_overlays.py:53-76` | after rewriting any text every matching line whose repository is in the catalog carries the catalog's tag, if and only if every catalogued tag is settled |
| `Images.SecondPassIff` | `scripts/gitops/render_overlays.py:53-76` | for any text and any catalog, a second pass changes nothing if and only if after the first every such line carries the catalog's tag |
| `Images.IdempotentIff` | `scripts/gitops/render_overlays.py:29-76` | rewriting every text twice is the same as once if and only if every catalogued tag is settled |
| `Images.UnsettledTagGrows` | `scripts/gitops/render_overlays.py:29-76` | for a tag that is not settled there is a text that grows with the second pass |
| `Images.TagWithNewlineBreaks` | `scripts/gitops/render_overlays.py:29-76` | every catalogued tag that begins with tag characters and then a newline, whatever follows, makes rewriting twice differ from once |
| `Images.CleanTagSettles` | `scripts/gitops/render_overlays.py:29-31` | a tag without quotes, comment signs and white space is settled |
| `Images.CatalogTagIsFirst` | `scripts/gitops/component_versions.py:451-460` | with the map built from the catalog, a repository gets the resolved tag of its first entry |

## Left out

- IdempotentIff: assumes catalogued tags without line breaks; a tag with one puts lines of its own into the text, and how the last of them reads depends on the comment behind the tag. `Images.TagWithNewlineBreaks` shows that every tag with a clean first line and a newline fails; `Images.SecondPassIff` and `Images.NoChangeIff` hold for all tags.
- TagsAreTheCatalogsIff: the same assumption, for the same reason.
- UnsettledTagGrows: the same assumption about the tag in question.
- RunIsAppendOnly: assumes labels that are on one line after stripping, which `Memlog.AppendAddsOneLineIff` shows to be needed, and keys of `set` that are single lines without a colon, so that it can say what the fields become; `Memlog.BodyIsAppendOnly` drops the second assumption, and `Memlog.SetKeepsBodyIff` says which keys harm the body.
- `write_atomic`, directories and file encodings of the memlog script; a command either writes the whole file or nothing.
- Newline translation when Python reads a text file; the parser treats all line ends alike, except inside the body.
- The order of keys in merged tables, and Python's equality of `1`, `1.0` and `True` as identifiers; scalars are compared as text.
- Reading the TOML files and finding the project root; layers are parameters, and a missing one is an empty table.
- The `read` command of the entity API, timestamps, latencies and correlation ids in log records.
- Files of the entity API: type and id are taken to name a file uniquely, ids are strings, and saving and logging both complete.
- Crashes of the edge handlers on bodies that are JSON but of the wrong type; such a body counts as one that does not parse.
- Interleaving of concurrent handlers; the services use threads without locks, and each handler is one atomic step here.
- The `/events` and `/telemetry` endpoints and the metrics page of the edge service.
- `_get`, `_list`, `_changes`, `_replay` and the domain events of the document service, and ids that Python cannot hash.
- Pushing blobs and manifests, and choosing the platform of an image index; they are foreign calls or plain selections.
- Floating point: latencies and ranks are real numbers, rounded half to even to three or six decimals.
- Payloads, units and time stamps of generated envelopes; the size limit is a parameter.
- The emission functions: they either return a latency or raise one of the two protocol errors; another exception would end a run without a summary.
- `substitute_env` and `image_refs`, `resolve` and the storage back-end checks: single substitutions and listings that would only add easy members.
- Installers, validators, bootstrap scripts, and the services that are decision tables or simple scans.
