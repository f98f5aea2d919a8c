# Verified models of the hard parts of callers

The repository is a call-graph extractor for C and C++ (`CallersData.cpp`) together with the libxml2 and C library
sources it keeps as analysis targets under `tests/test_saml_sign`. This project models the parts of both with the most
state, branching and arithmetic, and proves what they keep over whole runs.

`dafny verify dfyconfig.toml` checks everything.

| files | source | what is modelled |
|---|---|---|
| `basics.dfy`, `c_strings.dfy` | `libc/libc.c`, `libc/string.c` | zero-terminated strings and both substring searches |
| `list_spec.dfy`, `list.dfy` | `stub/list.c` | the sentinel ring and its operations, on the heap |
| `dict_hash.dfy`, `dict_pool.dfy`, `dict_table.dfy`, `dict_grow.dfy`, `dict.dfy` | `stub/dict.c` | the interning dictionary: hash functions, string pools, buckets with chains, growth, lookup with a parent |
| `catalog_text.dfy`, `catalog_urn.dfy`, `catalog_graph.dfy`, `catalog_precedence.dfy`, `catalog_identifiers.dfy`, `catalog_standard.dfy`, `catalog_cycles.dfy`, `catalog_laws.dfy`, `catalog.dfy` | `stub/catalog.c` | public identifiers, URNs, and resolution over possibly cyclic catalogs |
| `buf_growth.dfy`, `buf.dfy`, `buf_laws.dfy`, `buf_run.dfy` | `stub/buf.c` | the growable buffer under all its schemes |
| `entity_text.dfy`, `entity_output.dfy`, `entities.dfy` | `stub/entities.c` | the two encoders, the texts they write, and a reader of references to hold them against |
| `call_graph.dfy`, `callers.dfy`, `namespaces.dfy` | `CallersData.cpp` | the call edges of the files, and the splitting of qualified names |

Code that changes things step by step is modelled by classes, arrays and loops; each method is tied to a function or a
predicate on values, and the lemmas are about those.

## Where the code does not do what it is for

For each of these a lemma says exactly when the code meets its purpose.

- `xmlBufCCat` counts `use` up without the compatibility copy, and `xmlBufResize` begins by restoring `use` from that
  copy. A string that makes the buffer grow after its first byte therefore loses everything written before the growth:
  `Buffer.CCatAppendsExactlyWhen`, `Buffer.CattedKeepsTheEnd`, with an example in `Buffer.CCatLosesBytes`.
- `xmlListDup` makes one copying pass, and each pass reverses runs of equals. The duplicate equals the list exactly for
  ordered lists whose runs read the same both ways: `ListSpec.DupIsACopyExactlyWhen`, with an example in
  `ListSpec.DupIsNotACopy`. Sorting makes two passes and is stable.
- The fast key of the dictionary reads the first byte even of an empty name:
  `DictHash.FastKeyReadsTheNameExactlyWhen`.
- One exit of `xmlCatalogXMLResolve` skips the decrement of the depth counter. A lookup that no entry matches brings all
  counters back if and only if no cycle of further catalogs is reachable; otherwise some catalog is left at 51 and answers
  nothing any more: `CatalogCycles.CountersReturnExactlyWhen`, `CatalogCycles.CycleSilencesSomeCatalog`, and
  `CatalogCycles.CycleSilencesCatalog` for an example. Lookups that find something bring them back too where no cycle of
  references has a further catalog in it; cycles of delegates do no harm: `CatalogCycles.AllLookupsReturn`.
- Delegates are asked in the order in which they are listed, which the code only assumes to be that of decreasing prefix
  length; `public` entries answer whatever their `prefer` setting, and `delegatePublic` entries that do not prefer public
  are passed over even without a system identifier; a `rewriteSystem` entry with an empty start string is ignored.
  `CatalogStandard.StepMeetsExactlyWhen` gives the lists and identifiers on which a step is that of section 7.1 of OASIS
  XML Catalogs, whatever the catalogs referred to answer; `CatalogStandard.ShorterPrefixAnswers`,
  `CatalogStandard.PreferenceIsIgnored` and `CatalogStandard.EmptyStartIsIgnored` are examples of others.
- A system identifier that is a `urn:publicid:` name for another public identifier than the one given is in error and to be
  discarded by section 7.1.1; the code goes on with both: `CatalogIdentifiers.PreparationMeetsExactlyWhen`, with examples in
  `CatalogIdentifiers.ConflictIsKept` and `CatalogStandard.ConflictAnswers`.
- `strstr` of `libc.c` finds the end of the text for an empty word, that of `string.c` its beginning:
  `CStrings.AgreeExactlyWhen`.
- In 32 bits the size computed by `xmlBufResize` falls short of requests within ten bytes of the largest unsigned int:
  `BufGrowth.NewSizeSuffices`. `xmlBufSetAllocationScheme` answers -1 when it switches to IO, although the switch takes
  effect, and `xmlBufCreateSize` keeps its copy of the size in 32 bits.
- `add_function_call` passes the caller's mangled name for the callee when only the callee is in the current file:
  `CallGraph.CurrentFileMattersExactlyWhen`. External functions are compared by signature alone, so only the first of
  two callees with one signature is kept: `CallGraph.CalleeIsKeptExactlyWhen`.
- `get_namespaces` ignores a leading `::`, except on names that already have one and go deeper, and on `builtin`:
  `Namespaces.LeadingSeparatorMattersExactlyWhen`.
- `xmlEncodeEntitiesInternal` drops control characters and writes other characters XML does not allow byte by byte:
  `EntityText.EncodingIsInvertibleExactlyWhen`.

## Model

| member | source | states |
|---|---|---|
| `ListSpec.InsertKeepsOrder` | tests/test_saml_sign/stub/list.c:272-325 | both insertions keep an ordered list ordered and add exactly the new element |
| `ListSpec.InsertFirstPlace` | tests/test_saml_sign/stub/list.c:272-294 | Insert puts the element in front of all its equals and disturbs no other run |
| `ListSpec.InsertLastPlace` | tests/test_saml_sign/stub/list.c:304-325 | Append puts the element behind all its equals |
| `ListSpec.CopyPassOrders` | tests/test_saml_sign/stub/list.c:761-775 | a copying pass orders the elements and adds all of them; so Merge yields the ordered multiset union |
| `ListSpec.CopyPassReversesRuns` | tests/test_saml_sign/stub/list.c:761-775 | a copying pass reverses every run of equal elements |
| `ListSpec.SortIsStable` | tests/test_saml_sign/stub/list.c:643-664 | sorting gives an ordered permutation in which equals keep their order |
| `ListSpec.SortIsTheStableSort` | tests/test_saml_sign/stub/list.c:643-664 | a sequence is the result of sorting if and only if it is ordered and has the same runs of equals |
| `ListSpec.OrderedByRuns` | tests/test_saml_sign/stub/list.c:643-664 | two ordered sequences with the same runs are the same |
| `ListSpec.DupIsACopyExactlyWhen` | tests/test_saml_sign/stub/list.c:732-749 | the duplicate equals the list if and only if the list is ordered and its runs are palindromes |
| `ListSpec.DupIsNotACopy` | tests/test_saml_sign/stub/list.c:732-749 | an example: the duplicate of two different equals has them in the other order |
| `ListSpec.SearchFirstIsExact` | tests/test_saml_sign/stub/list.c:97-151 | on an ordered list the search from the front finds an equal if there is one, and the first |
| `ListSpec.SearchLastIsExact` | tests/test_saml_sign/stub/list.c:117-176 | the search from the back finds the last equal |
| `ListSpec.RemoveAllIsExact` | tests/test_saml_sign/stub/list.c:403-413 | on an ordered list every equal goes, nothing else does, and the count is their number |
| `ListSpec.ReverseTwice` | tests/test_saml_sign/stub/list.c:618-634 | reversing twice is the identity |
| `LinkedList.List.LowerSearch` | tests/test_saml_sign/stub/list.c:97-106 | the link of the first element not below the data, or the sentinel |
| `LinkedList.List.HigherSearch` | tests/test_saml_sign/stub/list.c:117-126 | the link of the last element not above the data, or the sentinel |
| `LinkedList.List.Insert` | tests/test_saml_sign/stub/list.c:272-294 | the ring stays well formed and holds the list with the element inserted before its equals |
| `LinkedList.List.Append` | tests/test_saml_sign/stub/list.c:304-325 | the same behind its equals |
| `LinkedList.List.PushFront` | tests/test_saml_sign/stub/list.c:542-562 | the element goes to the front |
| `LinkedList.List.PushBack` | tests/test_saml_sign/stub/list.c:574-593 | the element goes to the back |
| `LinkedList.List.RemoveFirst` | tests/test_saml_sign/stub/list.c:353-366 | the first equal goes, if the search meets one |
| `LinkedList.List.RemoveLast` | tests/test_saml_sign/stub/list.c:378-391 | the last equal goes, if the search meets one |
| `LinkedList.List.RemoveAllOf` | tests/test_saml_sign/stub/list.c:403-413 | the loop ends, and its count is exact on ordered lists |
| `LinkedList.List.Clear` | tests/test_saml_sign/stub/list.c:422-435 | the ring is the sentinel alone |
| `LinkedList.List.Size` | tests/test_saml_sign/stub/list.c:494-504 | the number of elements |
| `LinkedList.List.PopFront` | tests/test_saml_sign/stub/list.c:513-517 | the first element goes |
| `LinkedList.List.PopBack` | tests/test_saml_sign/stub/list.c:526-530 | the last element goes |
| `LinkedList.List.Copy` | tests/test_saml_sign/stub/list.c:761-775 | every element of the other list is inserted, and that list is unchanged |
| `LinkedList.List.Dup` | tests/test_saml_sign/stub/list.c:732-749 | a new ring with one copying pass over the list |
| `LinkedList.List.Merge` | tests/test_saml_sign/stub/list.c:717-721 | all elements of the second list are inserted, and it is emptied |
| `LinkedList.List.Sort` | tests/test_saml_sign/stub/list.c:643-664 | the list holds the two-pass sort of what it held |
| `LinkedList.List.ReverseInPlace` | tests/test_saml_sign/stub/list.c:618-634 | one pass turns the ring round: the same links in reverse order, next and prev inverse of each other |
| `LinkedList.TurnedRound` | tests/test_saml_sign/stub/list.c:618-634 | swapping next and prev in every link of a ring gives the reversed ring |
| `LinkedList.ReverseRingTwice` | tests/test_saml_sign/stub/list.c:618-634 | turning a ring round twice gives the ring back |
| `DictHash.FastKeyReadsTheNameExactlyWhen` | tests/test_saml_sign/stub/dict.c:444-467 | the fast key depends on the bytes of the name alone if and only if the length is at least 1 |
| `DictHash.SameBytesSameKey` | tests/test_saml_sign/stub/dict.c:70-74 | names with the same bytes have the same key |
| `DictHash.FastKeyIs` | tests/test_saml_sign/stub/dict.c:444-467 | the first byte counts 32 times, those up to the tenth once, and of a longer name the last one too |
| `DictHash.BigKeyVectors` | tests/test_saml_sign/stub/dict.c:375-393 | the keys of three strings under two seeds, and which key the sizes 128 and 768 select |
| `DictHash.ComputeBigKey` | tests/test_saml_sign/stub/dict.c:375-393 | the loop computes the one-at-a-time hash in 32-bit arithmetic |
| `DictHash.ComputeFastKey` | tests/test_saml_sign/stub/dict.c:444-467 | the fall-through switch computes the fast key |
| `DictPool.Strings.AddString` | tests/test_saml_sign/stub/dict.c:241-290 | the string gets a new pointer behind the free one of the first pool with room, and no string stored earlier moves or changes; it fails if and only if no pool has room and their sizes are beyond the limit; otherwise a new pool is taken, of which size is said |
| `DictTable.Table.Find` | tests/test_saml_sign/stub/dict.c:829-880 | the walk along a bucket finds the name, or proves it absent and gives the place to insert and the number of links followed |
| `DictTable.Table.NewEntry` | tests/test_saml_sign/stub/dict.c:926-946 | the table gains exactly one entry, in the bucket of its key |
| `DictTable.Restructured` | tests/test_saml_sign/stub/dict.c:926-946 | changing one bucket keeps the whole bucket structure |
| `DictGrow.NoReturn` | tests/test_saml_sign/stub/dict.c:712-744 | a chain of overflow nodes never comes back to one of them |
| `DictGrow.HeadStep` | tests/test_saml_sign/stub/dict.c:674-710 | the first pass of growing takes exactly the entry of the next bucket head |
| `DictGrow.NodeStep` | tests/test_saml_sign/stub/dict.c:712-744 | the second pass takes exactly the next node |
| `DictGrow.NodesAtStart` | tests/test_saml_sign/stub/dict.c:674-744 | the two passes together take every entry |
| `DictGrow.Rehash` | tests/test_saml_sign/stub/dict.c:631-754 | every entry, with its pointer and length, ends in the bucket of its key; the key is recomputed on leaving size 128 and kept otherwise |
| `Dictionary.Rekeyed` | tests/test_saml_sign/stub/dict.c:64-80 | after growing, every key is the one the new size selects |
| `Dictionary.Dict.constructor` | tests/test_saml_sign/stub/dict.c:539-598 | a new dictionary is empty with 128 buckets; one with a parent shares its seed |
| `Dictionary.Dict.Grow` | tests/test_saml_sign/stub/dict.c:631-754 | strings, pointers and the number of entries stay; it fails exactly outside the sizes 8 to 16384 |
| `Dictionary.Dict.FindInParent` | tests/test_saml_sign/stub/dict.c:882-924 | the reused key is the parent's key, and the walk finds the name in the parent or proves it absent |
| `Dictionary.Dict.Search` | tests/test_saml_sign/stub/dict.c:850-924 | the pointer the name is known by, here first and then in the parent, or proof that it is unknown |
| `Dictionary.Dict.Lookup` | tests/test_saml_sign/stub/dict.c:829-956 | a known name gives its pointer and changes nothing, an unknown one is added unless the pools are full, the parent never changes; the table grows six times exactly when an unknown name was added, more than three links were followed and the size is at most 2730 |
| `Dictionary.Dict.Exists` | tests/test_saml_sign/stub/dict.c:969-1064 | a pointer exactly for the names that are not too long and known here or in the parent, and the one they are known by |
| `Dictionary.ExistsThenLookup` | tests/test_saml_sign/stub/dict.c:968-1064 | a pointer that exists gives is the one lookup returns, and nothing changes; where it gives none, lookup refuses the name or adds it |
| `Dictionary.Dict.BytesBehind` | tests/test_saml_sign/stub/dict.c:241-290 | the bytes behind a returned pointer are the name and a zero |
| `Dictionary.Dict.PointersApart` | tests/test_saml_sign/stub/dict.c:586-598 | no string has two pointers, and no pointer belongs to parent and child |
| `Dictionary.LocatedUnique` | tests/test_saml_sign/stub/dict.c:829-956 | the pointer a name is known by is unique, and different names have different ones |
| `Dictionary.OutcomeKeeps` | tests/test_saml_sign/stub/dict.c:829-956 | a lookup never changes what an earlier pointer stands for |
| `Dictionary.OutcomeGives` | tests/test_saml_sign/stub/dict.c:829-956 | a lookup gives no pointer if and only if the name is too long, or unknown while the pools are full |
| `Dictionary.OutcomeExtends` | tests/test_saml_sign/stub/dict.c:829-956 | the pointers handed out in a run stay current through one more lookup |
| `Dictionary.CurrentIsCanonical` | tests/test_saml_sign/stub/dict.c:829-956 | pointers that are all current are equal exactly when the strings are |
| `Dictionary.LookupAll` | tests/test_saml_sign/stub/dict.c:829-956 | over any run of lookups two pointers are equal exactly when the strings are, through all growths and pool allocations; without a limit every name that is not too long gets one |
| `CatalogText.EmitWords` | tests/test_saml_sign/stub/catalog.c:1050-1072 | the copying loop writes the words joined by single spaces |
| `CatalogText.CleanIsNormal` | tests/test_saml_sign/stub/catalog.c:1037-1049 | the first loop accepts exactly the strings that are already normal |
| `CatalogText.NormalIsIdempotent` | tests/test_saml_sign/stub/catalog.c:1033-1073 | normalising twice is normalising once |
| `CatalogText.NormalizePublic` | tests/test_saml_sign/stub/catalog.c:1033-1073 | NULL exactly for NULL or a non-empty normal identifier, otherwise the normal form of section 6.2 |
| `CatalogText.CopyWords` | tests/test_saml_sign/stub/catalog.c:1056-1071 | the loop moves the words up inside the copy it works on, stays inside it and writes no more than the input |
| `CatalogUrn.UnwrapIsLeftInverse` | tests/test_saml_sign/stub/catalog.c:822-875 | unwrapping undoes the transcription of RFC 3151 up to 1997 characters, and gives a prefix beyond |
| `CatalogUrn.UnwrapPercents` | tests/test_saml_sign/stub/catalog.c:822-875 | unwrapping never adds a percent sign |
| `CatalogUrn.UnwrapLosesPercent` | tests/test_saml_sign/stub/catalog.c:2014-2057 | an identifier that unwraps to another `urn:publicid:` name has lost a percent sign, so unwrapping ends |
| `CatalogUrn.EscapeIs` | tests/test_saml_sign/stub/catalog.c:840-864 | a percent escape is decoded exactly when it is the upper-case hexadecimal code of one of eight characters |
| `CatalogUrn.DecodeIs` | tests/test_saml_sign/stub/catalog.c:830-870 | what one turn makes of any text, escapes that no transcription has included |
| `CatalogUrn.UnWrapURN` | tests/test_saml_sign/stub/catalog.c:822-875 | nothing for other names, otherwise the decoded identifier |
| `CatalogUrn.DecodeAll` | tests/test_saml_sign/stub/catalog.c:830-873 | the loop never writes past index 1998 and computes the decoding |
| `CatalogGraph.BestRewriteIsBest` | tests/test_saml_sign/stub/catalog.c:1666-1673 | the rewrite rule chosen has the longest matching prefix, which is not empty, and is the first of that length |
| `CatalogGraph.BudgetFalls` | tests/test_saml_sign/stub/catalog.c:1637-1643 | when no counter has fallen, the sum of 51 minus the counters has not risen, and has fallen if any counter rose |
| `CatalogGraph.Resolve` | tests/test_saml_sign/stub/catalog.c:1627-1843 | resolution ends on every finite graph, no counter exceeds 51 and none falls below its entry value |
| `CatalogGraph.ResolveList` | tests/test_saml_sign/stub/catalog.c:2003-2079 | the same across a list, with its unwrapping of identifiers |
| `CatalogPrecedence.ResolveRefines` | tests/test_saml_sign/stub/catalog.c:1627-1843 | on acyclic catalogs the answer is that of the code's order of precedence, without counters, memory of URLs or limits, and all counters are back |
| `CatalogPrecedence.DelegatesRefine` | tests/test_saml_sign/stub/catalog.c:1695-1740 | remembering fifty URLs and trying each once makes no difference; no answer is a cut |
| `CatalogPrecedence.NextRefines` | tests/test_saml_sign/stub/catalog.c:1823-1842 | the further catalogs answer in order |
| `CatalogPrecedence.ListRefines` | tests/test_saml_sign/stub/catalog.c:2003-2079 | a list answers by the rules for its prepared identifiers |
| `CatalogPrecedence.CatalogsRefine` | tests/test_saml_sign/stub/catalog.c:2058-2079 | its first catalog with an answer decides |
| `CatalogPrecedence.RanksDoNotMatter` | tests/test_saml_sign/stub/catalog.c:1627-1843 | the rules do not depend on how the acyclic graph is ranked |
| `CatalogStandard.StepMeetsExactlyWhen` | tests/test_saml_sign/stub/catalog.c:1627-1843 | whatever the catalogs referred to answer, a list is resolved as section 7.1 says if and only if it conforms: delegates in the right order, public entries and delegates chosen by preference, rewrite rules with any start string |
| `CatalogStandard.TriesExactlyWhen` | tests/test_saml_sign/stub/catalog.c:1699-1738 | delegates of different catalogs are asked as section 7.1 says if and only if none is passed over for its preference and they are listed by non-increasing prefix length |
| `CatalogStandard.TidyConforms` | tests/test_saml_sign/stub/catalog.c:1317-1328 | a list with sorted delegates, public preference throughout and no empty start string conforms for all identifiers |
| `CatalogStandard.PrecedenceIsCode` | tests/test_saml_sign/stub/catalog.c:1627-1843 | the order of precedence is, list by list, one step over what the catalogs referred to answer |
| `CatalogStandard.PrecedenceMeetsStandard` | tests/test_saml_sign/stub/catalog.c:1627-1843 | on acyclic catalogs that all conform, the answer is that of section 7.1 for identifiers that are prepared alike |
| `CatalogStandard.ResolveMeetsStandard` | tests/test_saml_sign/stub/catalog.c:1627-1843 | on tidy acyclic catalogs resolution of such identifiers gives the answer of section 7.1 and brings all counters back |
| `CatalogStandard.LookupMeetsStandard` | tests/test_saml_sign/stub/catalog.c:2003-2079 | the same for a lookup in a list of catalogs |
| `CatalogStandard.ShorterPrefixAnswers` | tests/test_saml_sign/stub/catalog.c:1699-1738 | an example where a delegate with a shorter prefix answers before one with a longer |
| `CatalogStandard.PreferenceIsIgnored` | tests/test_saml_sign/stub/catalog.c:1747-1758 | an example where a public entry that is not preferred answers beside a system identifier |
| `CatalogStandard.LongestStartIsLongest` | tests/test_saml_sign/stub/catalog.c:1665-1671 | the rewrite rule section 7.1 asks for: the longest start string, the empty one included, and the first of that length |
| `CatalogStandard.EmptyStartIsIgnored` | tests/test_saml_sign/stub/catalog.c:1665-1671 | an example where a rewrite rule with an empty start string is passed over |
| `CatalogStandard.ConflictAnswers` | tests/test_saml_sign/stub/catalog.c:2014-2057 | an example where the code answers for a system identifier that section 7.1.1 discards |
| `CatalogIdentifiers.PreparedParts` | tests/test_saml_sign/stub/catalog.c:2014-2057 | what is left of both identifiers: the words of the public one joined by single spaces, unwrapped until it is no URN, and what the system one then is |
| `CatalogIdentifiers.PreparationMeetsExactlyWhen` | tests/test_saml_sign/stub/catalog.c:2014-2057 | the identifiers are prepared as section 7.1.1 says if and only if the system identifier is not wrapped, or there is no public one, or it unwraps to that |
| `CatalogIdentifiers.ConflictIsKept` | tests/test_saml_sign/stub/catalog.c:2040-2057 | an example where both identifiers are kept |
| `CatalogIdentifiers.OnlyWordsMatter` | tests/test_saml_sign/stub/catalog.c:2014-2057 | public identifiers with the same words resolve alike in every list, whatever blanks are between and around the words |
| `CatalogIdentifiers.BlanksAreNothing` | tests/test_saml_sign/stub/catalog.c:2014-2016 | a public identifier of blanks resolves as if there were none |
| `CatalogIdentifiers.PreparedIsClean` | tests/test_saml_sign/stub/catalog.c:2014-2057 | the public identifier that is passed on is one the first loop of normalisation accepts |
| `CatalogIdentifiers.OneLetter` | tests/test_saml_sign/stub/catalog.c:1037-1072 | of the one-character identifiers exactly space, tab, line feed and carriage return are nothing |
| `CatalogIdentifiers.BlanksAreFolded` | tests/test_saml_sign/stub/catalog.c:1037-1072 | an example: two blanks between words become one |
| `CatalogCycles.ResolveFillsOrRestores` | tests/test_saml_sign/stub/catalog.c:1627-1843 | a lookup that no entry matches finds nothing, and restores all counters or takes one beyond the limit |
| `CatalogCycles.NoCycleRestores` | tests/test_saml_sign/stub/catalog.c:1823-1842 | without a reachable cycle every counter is back |
| `CatalogCycles.CycleLeaks` | tests/test_saml_sign/stub/catalog.c:1823-1842 | inside a cycle some counter is not |
| `CatalogCycles.CountersReturnExactlyWhen` | tests/test_saml_sign/stub/catalog.c:1823-1842 | after a lookup that no entry matches all counters are back if and only if no cycle of further catalogs is reachable |
| `CatalogCycles.CycleSilencesSomeCatalog` | tests/test_saml_sign/stub/catalog.c:1637-1643 | a cycle is reachable if and only if some catalog answers nothing afterwards, whatever it is asked |
| `CatalogCycles.ListCountersReturnExactlyWhen` | tests/test_saml_sign/stub/catalog.c:2003-2079 | the same for a lookup in a list of catalogs, with any identifiers it prepares |
| `CatalogCycles.DelegateRoom` | tests/test_saml_sign/stub/catalog.c:1695-1740 | a list that delegates does so again with the identifiers it passes on, so it never asks further catalogs below |
| `CatalogCycles.RoomRestores` | tests/test_saml_sign/stub/catalog.c:1627-1843 | a lookup restores all counters if those of the lists that may ask further catalogs are below the limit |
| `CatalogCycles.CountersReturnWithoutNextCycles` | tests/test_saml_sign/stub/catalog.c:1627-1843 | a lookup, whatever it finds, restores all counters if no cycle of the references it may follow has a further catalog in it |
| `CatalogCycles.AllLookupsReturn` | tests/test_saml_sign/stub/catalog.c:2003-2079 | on catalogs without such cycles every lookup in every list does, with any identifiers |
| `CatalogCycles.CounterLeaks` | tests/test_saml_sign/stub/catalog.c:1823-1842 | the example: a failed lookup on a catalog that refers to itself leaves its counter at 51, from any value |
| `CatalogCycles.CycleSilencesCatalog` | tests/test_saml_sign/stub/catalog.c:1637-1643 | after it the catalog no longer answers what it answered before |
| `CatalogLaws.MatchIs` | tests/test_saml_sign/stub/catalog.c:1655-1678 | when a rewrite rule or a delegate matches, character by character; a missing name matches everything |
| `CatalogLaws.SystemEntryAnswers` | tests/test_saml_sign/stub/catalog.c:1655-1664 | the first system entry with the identifier answers with its URL, or nothing without one, whatever else is in the list |
| `CatalogLaws.RewriteAnswers` | tests/test_saml_sign/stub/catalog.c:1665-1694 | otherwise the longest rewrite rule, with the rest of the identifier behind its URL |
| `CatalogLaws.SystemDelegatesAnswer` | tests/test_saml_sign/stub/catalog.c:1695-1739 | otherwise the delegates, and nothing after them |
| `CatalogLaws.PublicEntryAnswers` | tests/test_saml_sign/stub/catalog.c:1744-1771 | the first public entry answers where nothing matches the system identifier |
| `CatalogLaws.PublicDelegatesAnswer` | tests/test_saml_sign/stub/catalog.c:1772-1818 | otherwise its delegates, and nothing after them |
| `CatalogLaws.FirstDelegateAnswers` | tests/test_saml_sign/stub/catalog.c:1703-1738 | the first matching delegate is asked first, for that identifier alone; if all have its URL no other is asked, and a search that finds nothing is cut off |
| `CatalogLaws.FiftyAreRemembered` | tests/test_saml_sign/stub/catalog.c:1706-1716 | a delegate that finds nothing is remembered by its URL while fewer than fifty are |
| `CatalogLaws.FirstNextAnswers` | tests/test_saml_sign/stub/catalog.c:1820-1842 | where nothing matches, the first further catalog is asked with both identifiers; if it finds nothing and the own counter is 51, that ends the search and the counter stays |
| `CatalogLaws.NothingAnswers` | tests/test_saml_sign/stub/catalog.c:1627-1843 | with nothing to ask there is no answer, and the counter is back |
| `CatalogLaws.FirstCatalogAnswers` | tests/test_saml_sign/stub/catalog.c:2058-2075 | the first catalog of a list is asked first, and is the last if it answers or its counter is then 51 |
| `CatalogLaws.SilencedListAnswersNothing` | tests/test_saml_sign/stub/catalog.c:2058-2075 | a list whose first catalog is beyond the limit answers nothing, whatever it is asked |
| `CatalogStore.ScanSystem` | tests/test_saml_sign/stub/catalog.c:1650-1684 | one loop finds the exact match, the best rewrite, and whether there are delegates and further catalogs |
| `CatalogStore.ScanPublic` | tests/test_saml_sign/stub/catalog.c:1745-1770 | the same for the public identifier |
| `CatalogStore.Catalogs.XMLResolve` | tests/test_saml_sign/stub/catalog.c:1627-1843 | answer and counters are those of the resolution function |
| `CatalogStore.Catalogs.ResolveDelegates` | tests/test_saml_sign/stub/catalog.c:1695-1740 | the loop with its array of fifty URLs follows that function |
| `CatalogStore.Catalogs.ResolveNext` | tests/test_saml_sign/stub/catalog.c:1823-1842 | the same for the further catalogs and the exit that skips the decrement |
| `CatalogStore.Catalogs.ListXMLResolve` | tests/test_saml_sign/stub/catalog.c:2003-2079 | the same for lists, with identifiers normalised and unwrapped as the lemmas of CatalogIdentifiers say |
| `CatalogStore.Catalogs.ResolveCatalogs` | tests/test_saml_sign/stub/catalog.c:2058-2079 | the same for the loop over catalogs |
| `BufGrowth.CheckAfterUpdate` | tests/test_saml_sign/stub/buf.c:60-77 | a check right after an update changes nothing; a field set since is kept only from 2^31 - 1 on |
| `BufGrowth.DoublingIsExact` | tests/test_saml_sign/stub/buf.c:775-784 | the loop finds the least doubling that is enough, and gives up exactly when none fits in 32 bits |
| `BufGrowth.NewSizeSuffices` | tests/test_saml_sign/stub/buf.c:770-808 | when the loop ends, and exactly when the size reaches the request, under every scheme |
| `BufGrowth.GrownSizeSuffices` | tests/test_saml_sign/stub/buf.c:454-474 | more than the requested room is free even under the limit of bounded buffers |
| `BufferLaws.ResizeIs` | tests/test_saml_sign/stub/buf.c:744-808 | which requests fail, and the size the others lead to: ten more, the request itself, or the least doubling that is enough, in 32 bits, scheme by scheme |
| `BufferLaws.RoomIs` | tests/test_saml_sign/stub/buf.c:887-905 | the answer of xmlBufAdd and xmlBufAddHead for any number of bytes: 0, -1 at the limit of bounded buffers, or 2 when no doubling fits |
| `BufferLaws.PieceIs` | tests/test_saml_sign/stub/buf.c:876-886 | the bytes added: as many as the length says, or those before the first zero |
| `BufferLaws.CattedIs` | tests/test_saml_sign/stub/buf.c:1043-1050 | how many bytes xmlBufCCat writes before it grows the buffer, the size it asks for then, and from which byte it starts again |
| `Buffer.Buf.CreateSize` | tests/test_saml_sign/stub/buf.c:155-183 | an empty terminated buffer, and exactly when the 32-bit copy of its size does harm |
| `Buffer.Buf.CreateStatic` | tests/test_saml_sign/stub/buf.c:230-256 | an immutable buffer over the given memory |
| `Buffer.Buf.CheckCompat` | tests/test_saml_sign/stub/buf.c:71-77 | the fields after the check |
| `Buffer.Buf.UpdateCompat` | tests/test_saml_sign/stub/buf.c:60-64 | the copies after the update agree with the fields |
| `Buffer.Buf.SetAllocationScheme` | tests/test_saml_sign/stub/buf.c:287-319 | when the scheme changes and what is answered; the contents stay |
| `Buffer.Buf.Empty` | tests/test_saml_sign/stub/buf.c:354-373 | the contents are cleared, an IO buffer gets its gap back, and other sizes stay |
| `Buffer.Buf.Shrink` | tests/test_saml_sign/stub/buf.c:387-423 | the front is dropped by moving the bytes or the start, and where start and size are then; an IO buffer takes its gap back exactly when that is at least the rest |
| `Buffer.Buf.Erase` | tests/test_saml_sign/stub/buf.c:645-656 | the back is dropped, or nothing when there is less |
| `Buffer.Buf.Resize` | tests/test_saml_sign/stub/buf.c:744-853 | succeeds exactly when the growth arithmetic does, reaches the request, keeps the contents up to the restored use, and where the contents start then |
| `Buffer.Buf.FigureSize` | tests/test_saml_sign/stub/buf.c:770-808 | the switch and its loops compute the new size |
| `Buffer.Buf.Reallocate` | tests/test_saml_sign/stub/buf.c:810-848 | each way of getting the block keeps contents and terminator; the start moves to the front exactly when the gap of an IO buffer is larger than the new size |
| `Buffer.Buf.Add` | tests/test_saml_sign/stub/buf.c:867-913 | the bytes are appended exactly when the answer is 0, which answer each case gets, and the size then |
| `Buffer.Buf.AddHead` | tests/test_saml_sign/stub/buf.c:927-994 | the bytes are prepended, in the gap of an IO buffer exactly if they fit there; which answer each case gets, and start and size then |
| `Buffer.Buf.Cat` | tests/test_saml_sign/stub/buf.c:1006-1014 | the string is appended |
| `Buffer.Buf.CCat` | tests/test_saml_sign/stub/buf.c:1026-1053 | what the loop leaves in the buffer, growth by growth |
| `Buffer.CattedKeepsTheEnd` | tests/test_saml_sign/stub/buf.c:1043-1050 | what is kept is the end of the string, and not all of it once the buffer grows after the first byte |
| `Buffer.CCatAppendsExactlyWhen` | tests/test_saml_sign/stub/buf.c:1026-1053 | the whole string is appended if and only if no growth is needed after its first byte |
| `Buffer.CCatLosesBytes` | tests/test_saml_sign/stub/buf.c:1043-1050 | an example where the first ten of twenty-five bytes are lost |
| `Buffer.Buf.GrowInternal` | tests/test_saml_sign/stub/buf.c:436-496 | 0 if and only if the buffer is in error, immutable, or bounded with 10000000 bytes wanted; otherwise more room than asked for, in a block of the old size if there was room, else of twice that if it is more than the length, else of use, length and 100, cut to the bound; the contents stay |
| `Buffer.Buf.Grow` | tests/test_saml_sign/stub/buf.c:508-519 | the same sizes through the int interface, whose answer is the room modulo 2^32 |
| `BufferRuns.Do` | tests/test_saml_sign/stub/buf.c:354-1053 | one operation does what it means for a byte sequence exactly when it is accepted; xmlBufCCat appends the bytes it keeps |
| `BufferRuns.CCatMeansCatExactlyWhen` | tests/test_saml_sign/stub/buf.c:1026-1053 | in a run xmlBufCCat does what it is meant to if and only if no growth is needed after the first byte |
| `BufferRuns.Run` | tests/test_saml_sign/stub/buf.c:354-1053 | over any run under any schemes the contents are the fold of the operations with their outcomes, and stay terminated |
| `CallGraph.RecordedIs` | CallersData.cpp:1788-1998 | the four placements all link the same two nodes, up to the mangled name |
| `CallGraph.RecordedEffect` | CallersData.cpp:1788-1998 | a call changes one set at each end and nothing else |
| `CallGraph.EdgesAreTheCallsAt` | CallersData.cpp:1788-1998 | in every reachable store the local edges between two functions are exactly the calls seen between them, every external call has an entry at both ends, and every entry is that of a call |
| `CallGraph.EdgesAreSymmetric` | CallersData.cpp:1788-1998 | every local and external edge has both of its ends, external ones cross files, and no function is its own local callee |
| `CallGraph.CalleesAreTheFirstCalls` | CallersData.cpp:4297-4352 | the external callees of a function are the signatures it was seen calling in other files, each with the entry of the first such call |
| `CallGraph.CallersAreTheFirstCalls` | CallersData.cpp:3853-3878 | the same for its external callers |
| `CallGraph.CalleeIsKeptExactlyWhen` | CallersData.cpp:4575-4578 | over any run, a function called in another file has its own entry if and only if the first call to its signature was to it |
| `CallGraph.SecondFileIsDropped` | CallersData.cpp:4575-4578 | a second callee with the same signature keeps its caller but gets no entry |
| `CallGraph.CurrentFileMattersExactlyWhen` | CallersData.cpp:1943-1963 | the current file matters exactly when a new entry gets a different mangled name |
| `CallGraph.NodesAreThoseMentioned` | CallersData.cpp:1788-1998 | in every reachable store a function is defined if and only if it was defined or seen calling, declared if and only if it was declared or seen called, and a file is there if and only if it was opened or mentioned |
| `CallersData.File.GetOrCreateLocalDefined` | CallersData.cpp:1636-1708 | the definition is there afterwards, once, and the counter asserted equals the number of definitions |
| `CallersData.File.GetOrCreateLocalDeclared` | CallersData.cpp:1484-1543 | the same for declarations, and no definition is made |
| `CallersData.File.AddLocalCallee` | CallersData.cpp:4277-4295 | the callee is added unless it is the function itself |
| `CallersData.File.AddLocalCaller` | CallersData.cpp:3741-3759 | the caller is added unless it is the function itself |
| `CallersData.File.AddExternalCallee` | CallersData.cpp:4297-4352 | the entry is added unless one with that signature is there |
| `CallersData.File.AddExternalCaller` | CallersData.cpp:3853-3878 | the same for callers |
| `CallersData.Dir.CreateOrGetFile` | CallersData.cpp:288-322 | the file of the path, created empty if it was not there |
| `CallersData.Dir.AddFunctionCall` | CallersData.cpp:1788-1998 | the files hold what the four placements prescribe, of which RecordedIs, RecordedEffect and NodesAreThoseMentioned say what it is |
| `CallersData.Replay` | CallersData.cpp:1788-1998 | after any run the files hold exactly its calls, with both ends of every edge, and the functions and files of CallGraph.NodesAreThoseMentioned |
| `Namespaces.SplitJoins` | CallersData.cpp:2463-2465 | the parts of a name, each with its separator, give the name back |
| `Namespaces.PartsAreSimple` | CallersData.cpp:2463-2465 | no part holds a separator, and it ends at the leftmost one |
| `Namespaces.WithoutSeparator` | CallersData.cpp:2463-2473 | a name without a separator is one part, so it has no namespace |
| `Namespaces.GetNamespaces` | CallersData.cpp:2450-2552 | builtin gives env; a name without a namespace part in front of those ignored gives false and `::` twice; any other gives true with its namespaces and root, unless the assertion fails, and when it does |
| `Namespaces.LeadingSeparatorMattersExactlyWhen` | CallersData.cpp:2450-2552 | a leading `::` changes the answer exactly for builtin and for deeper names that have one already |
| `Namespaces.NamesRebuild` | CallersData.cpp:2496-2512 | without a record, namespaces and last part rebuild the name, and the root is its first part |
| `Namespaces.NamesRebuildRecord` | CallersData.cpp:2473-2512 | with a record, namespaces, record and last part rebuild the name, exactly when the assertion holds |
| `EntityText.SpecialIsInvertible` | tests/test_saml_sign/stub/entities.c:786-860 | reading the references gives back every byte string, and no markup character is left raw |
| `EntityText.EncodedIsSeen` | tests/test_saml_sign/stub/entities.c:556-740 | what is read back from the encoding of any code points |
| `EntityText.EncodingIsInvertibleExactlyWhen` | tests/test_saml_sign/stub/entities.c:556-740 | the code points come back if and only if XML allows all of them |
| `EntityText.EncodedIsAscii` | tests/test_saml_sign/stub/entities.c:556-740 | the output is ASCII without raw `<`, `>` and carriage return |
| `EntityText.WrittenFits` | tests/test_saml_sign/stub/entities.c:648-731 | a round writes at most ten bytes, so the local buffer of eleven is enough |
| `EntityOutput.AsciiWritten` | tests/test_saml_sign/stub/entities.c:608-648 | what comes out for each ASCII character in front of any text |
| `EntityOutput.CharacterWritten` | tests/test_saml_sign/stub/entities.c:649-731 | a character XML allows, from 0x80 on, comes out as one reference in upper-case hexadecimal without leading zeros |
| `EntityOutput.NonCharacterWritten` | tests/test_saml_sign/stub/entities.c:706-718 | a code point XML does not allow, from 0x80 on, comes out as decimal references to the bytes of its UTF-8 form |
| `EntityOutput.StrayWritten` | tests/test_saml_sign/stub/entities.c:668-677 | a byte that no character starts with comes out as a decimal reference to it |
| `EntityOutput.LeadWritten` | tests/test_saml_sign/stub/entities.c:678-731 | behind a lead byte the lower six bits of each byte count, whatever the upper two are, overlong forms included |
| `EntityOutput.EncodedIsCopyExactlyWhen` | tests/test_saml_sign/stub/entities.c:556-740 | a text is left as it is if and only if every byte is a tab, a line feed, or between 0x20 and 0x7f and no markup character |
| `EntityOutput.SpecialWritten` | tests/test_saml_sign/stub/entities.c:817-851 | what comes out for each byte in front of any text |
| `EntityOutput.SpecialIsCopyExactlyWhen` | tests/test_saml_sign/stub/entities.c:817-851 | a text is left as it is if and only if it has none of the five characters that are replaced |
| `Entities.EncodeSpecialChars` | tests/test_saml_sign/stub/entities.c:786-860 | the doubling buffer ends with the encoded string and its terminator, is never overrun, and is no larger than the doublings of 1000 need |
| `Entities.EncodeEntitiesInternal` | tests/test_saml_sign/stub/entities.c:556-740 | the same with UTF-8 decoding; what the encoded string is the lemmas of EntityOutput say |
| `Entities.Scan` | tests/test_saml_sign/stub/entities.c:654-700 | remainders and products, which stand for the masks and shifts, compute the value of the bytes at the cursor |
| `Entities.EncodeText` | tests/test_saml_sign/stub/entities.c:556-740 | encoding the UTF-8 form of XML characters and reading it gives them back |
| `CStrings.StrLen` | tests/test_saml_sign/libc/libc.c:133-141 | the place of the terminator |
| `CStrings.StrChr` | tests/test_saml_sign/libc/libc.c:252-261 | the first place of the byte from the start on, terminator included |
| `CStrings.StrNCmp` | tests/test_saml_sign/libc/libc.c:121-131 | the difference at the first byte that differs |
| `CStrings.DifferenceIsExact` | tests/test_saml_sign/libc/libc.c:121-131 | it is 0 exactly when the first bytes are the same strings |
| `CStrings.DifferenceAt` | tests/test_saml_sign/libc/libc.c:121-131 | otherwise it is the difference of the bytes at the first place that differs |
| `CStrings.LibcStrStr` | tests/test_saml_sign/libc/libc.c:275-288 | the first occurrence, or the terminator for an empty word, reading no further than the terminators |
| `CStrings.StringStrStr` | tests/test_saml_sign/libc/string.c:163-192 | the first occurrence, reading no further than the terminators |
| `CStrings.AgreeExactlyWhen` | tests/test_saml_sign/libc/libc.c:275-288 | the two searches agree if and only if the word is not empty or the text is |

## Left out

- Dictionary.Dict.Lookup: an empty name must have its terminating zero, because the fast key reads the first byte; interning is stated for names of length at least 1. The 32-bit length fields and pool sizes are unbounded numbers.
- Dictionary.LookupAll: names are passed with their length; runs that mix in xmlDictQLookup are not modelled, its fast key differs from that of the joined name and a string can then be interned twice.
- Buffer.Buf.Resize: requests up to ten bytes below the largest unsigned int, on buffers below 2^31 bytes where it grows; beyond that BufGrowth.NewSizeSuffices says what goes wrong. A request of 0 bytes on a buffer without memory is left out, and so is what a fresh block holds.
- Buffer.Buf.Add: the string does not lie in the buffer itself, and the sum of the lengths fits in 32 bits.
- Buffer.Buf.AddHead: as Buffer.Buf.Add.
- Buffer.Buf.Cat: as Buffer.Buf.Add.
- Buffer.Buf.GrowInternal: sizes and lengths below 2^62, so that their sums fit in 64 bits.
- Buffer.Buf.Grow: the same.
- Buffer.Buf.Erase: needs an allocated buffer; the code writes the terminator through the content pointer whatever it is.
- Buffer.Buf.CCat: an empty string needs an allocated buffer, for the same reason.
- BufferRuns.Do: operations outside the ranges above are not performed.
- BufferRuns.Run: the same.
- Dictionary.Dict.FindInParent: the same names as Dictionary.Dict.Lookup.
- Dictionary.Dict.Search: the same names as Dictionary.Dict.Lookup.
- LinkedList.List.Copy: the other list is another one; a list copied into itself is left out.
- LinkedList.List.Merge: the second list is another one; merging a list with itself, after which it is empty, is left out.
- CatalogStandard.StepMeetsExactlyWhen: among delegates with prefixes of one length the order of listing is taken, as section 7.1 gives none; entries without a name or URL, which the parser refuses, are read as the code reads them; the escaping of characters in system identifiers is left out.
- CatalogIdentifiers.PreparationMeetsExactlyWhen: a name that unwraps to a `urn:publicid:` name is unwrapped again on both sides, as the code does.
- CatalogCycles.CountersReturnExactlyWhen: lookups that some entry matches are covered by CatalogCycles.CountersReturnWithoutNextCycles and CatalogCycles.AllLookupsReturn, in one direction: on a cycle whose delegates match no common identifier nothing leaks.
- CatalogPrecedence.ResolveRefines: entries of one list with the same URL refer to the same list, as catalogs fetched by URL do, and the counters start below the limit.
- CallersData.Dir.AddFunctionCall: files are the same when their canonical paths are; the aliasing of header files by base name is left out. FctDef and FctDecl are values in the maps of a File, so the pointers held to them between two steps are not modelled. Locations are kept as file, begin and end, not as the text made of them, and the set of calls of a file is not kept.
- CallersData.Dir.CreateOrGetFile: a new file is empty; what a JSON file of an earlier run holds is not read.
- CallersData.File.GetOrCreateLocalDefined: the definition is not entered in its declaration.
- CallersData.File.GetOrCreateLocalDeclared: redeclared methods are not completed.
- Namespaces.GetNamespaces: identifiers with a parenthesis, whose qualifiers a regular expression extracts first.
- Entities.Scan: the masks and shifts of the code are remainders and products.
- Entities.EncodeEntitiesInternal: no document, so no HTML and no other encoding; strings cut off inside a character, on which the code passes the terminator.
- CStrings.LibcStrStr: the length of the word is an int in the code and unbounded here.
- LinkedList.List.Unlink: lists with a deallocator of their own, whose copies share the data.
- XML_MAX_TEXT_LENGTH (10000000), BASE_BUFFER_SIZE (4096) and XML_ERR_NO_MEMORY (2) are the values of libxml2's headers, which are not part of this model or of the repository.
- Failure of malloc and realloc, freeing, mutexes, the random seed (a parameter), debugging output.
- xmlCatalogXMLResolveURI, fetching and parsing of catalogs (the graph is loaded), SGML catalogs, dumping; lists of entries are numbered rather than linked by pointers.
- xmlBufDetach, xmlBufAddLen, xmlBufInflate and the conversions from and to xmlBuffer.
- xmlDictQLookup, xmlDictFree, xmlDictCleanup, xmlDictOwns, the usage counters.
- JSON reading and writing, records, threads, redeclarations and definitions of the call store, and its metrics other than the two asserted counters.
- The visitor over Clang's syntax tree, the SAML parsers, the SAX handlers, chvalid.c.
