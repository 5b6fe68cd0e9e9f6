# m3u-filter core in Dafny

This project models the sequential core of m3u-filter, a Rust service that reads IPTV playlists (M3U and Xtream), filters, renames and sorts them, and writes them back out. It also serves the EPG (XMLTV) and keeps an on-disk B+ tree index. The model covers six pieces of pure logic:

- **The in-memory B+ tree** (`BPlusTree`, proofs in `BPlusTreeProofs`):
  - sorted-key nodes;
  - the two binary searches (exact match and upper bound);
  - leaf and inner insert with overflow split;
  - root promotion and point query;
  - the block-size arithmetic behind the two orders.

  The proofs establish a routing invariant: each node answers for a key range. From that they show that every query returns the last value inserted for its key under the corrected insert (`Upsert`), and under the source's insert for keys not already in the tree. `BPlusTreeProofs.InsertTestCorrect` proves this for the source's test of keys 0..=500 at the orders of `BPlusTree<u32, String>`.
- **The playlist records** (`Playlist`):
  - the cluster/item-type conversions and their display names;
  - the named field accessor of an item header;
  - merging a group into a fetched playlist;
  - the `#EXTINF` line of the M3U extended format;
  - the M3U and Xtream forms of an item.
- **The output transforms** (`M3uProcessing`):
  - cleaning text for a file name;
  - sorting groups by title, ascending or descending;
  - rule-driven renaming of groups and items.
- **The EPG timeshift setting and timestamp guard** (`XmltvApi`).
- **The path helpers** (`FileUtils`). A path is its directory plus its file name, and Rust's rule splits the name into stem and extension.
- **Streaming the elements of a top-level JSON array, and the document filter** (`JsonUtils`). The JSON array walk is a byte-level state machine; parsing one element is a parameter.

`Wrappers`, `RustChar` and `RustInt` hold the `Option`/`Result` types, Rust's character classes and `str::parse` for the integer types; `Seqs` holds two facts about sequence concatenation that the string and list proofs share.

The model covers the Rust core modules; m3u-filter's download orchestrator and web UI are outside it.

Things outside the model's reach are parameters:

- serde_json's element parser;
- `serde_json::to_string`;
- `Regex::replace_all`;
- chrono's date shift;
- `absolutize`.

Three further modelling choices:

- `Rc`/`RefCell` become plain values.
- B+ tree keys are integers, since the source only needs `K: Ord`.
- The inner split copies the new sibling's first child into the node that stays (`children.push(... .clone())`). The proofs show this copy is harmless: it sits behind a separator equal to the next one, so no key is routed to it.

## Model

| member | source | states |
|---|---|---|
| BPlusTree.InsertAt | src/utils/bplustree.rs:104-106 | `Vec::insert`: one element longer, the new element at the index, earlier elements in place, later ones shifted by one |
| BPlusTree.IsOverflow | src/utils/bplustree.rs:34-37 | a node overflows when it holds more keys than the order |
| BPlusTree.MedianIndex | src/utils/bplustree.rs:39-42 | `order >> 1` is half the order rounded down |
| BPlusTree.FindLeafEntry | src/utils/bplustree.rs:44-51 | the first key of the leftmost leaf, defined when every node on the leftmost path has a first child or key; `BPlusTreeProofs.LeftmostInRange` states where it lies |
| BPlusTree.UpperBound | src/utils/bplustree.rs:84-96 | the first index whose key is greater than the key; every key before it is at most the key |
| BPlusTree.IndexOf | src/utils/bplustree.rs:64-82 | the first index holding the key, and None exactly when the key is absent |
| BPlusTree.GetEntryIndexUpperBound | src/utils/bplustree.rs:84-96 | the key before the result is at most the key and the key at the result is greater; on sorted keys the result is the upper bound, and every key from it on is greater |
| BPlusTree.UpperBoundIs | src/utils/bplustree.rs:375-387 | any index with the partition property is the upper bound, so the copy in `BPlusTreeQuery` computes the same index |
| BPlusTree.GetEqualEntryIndex | src/utils/bplustree.rs:64-82 | a hit holds the key; on sorted keys it is None exactly when the key is absent (the empty list included); on strictly sorted keys it is the key's index |
| BPlusTree.IndexOfUnique | src/utils/bplustree.rs:64-82 | in strictly sorted keys, an index holding the key is the one the search finds |
| BPlusTree.WellShapedRoutable | src/utils/bplustree.rs:53-62 | a node with one more child than keys at every inner level can always be descended by a query |
| BPlusTree.Query | src/utils/bplustree.rs:53-62 | a leaf answers only for its keys, and answers for every key when keys and values line up |
| BPlusTree.TreeQuery | src/utils/bplustree.rs:315-317 | a tree whose root is a leaf answers exactly for the root's keys; for deeper trees the answers are those `NewTree`, `BPlusTreeProofs.TreeInsertCorrect` and `BPlusTreeProofs.UpsertCorrect` state |
| BPlusTree.Split | src/utils/bplustree.rs:127-141 | an overflowing leaf keeps exactly its first order/2 keys and values, and the sibling's keys and values complete them to the originals; an inner node keeps median+1 keys, the sibling gets the rest, both have one more child than keys, and the node's last child is the sibling's first |
| BPlusTree.LeafInsert | src/utils/bplustree.rs:98-109 | a leaf insert yields non-empty leaves with a value for each key; re-inserting a key the leaf holds keeps its keys, splits off nothing, and grows the values by one as written (keeps their number when replacing) |
| BPlusTree.AbsorbSibling | src/utils/bplustree.rs:110-121 | taking in a child's new sibling keeps the inner node, and any sibling it splits off, well shaped |
| BPlusTree.NodeInsert | src/utils/bplustree.rs:98-125 | insert keeps a node and any split-off sibling well shaped and of the node's kind |
| BPlusTree.NewTree | src/utils/bplustree.rs:270-279 | a new tree is well shaped and answers no query |
| BPlusTree.InsertWith | src/utils/bplustree.rs:292-313 | inserting into a tree keeps it well shaped and keeps its orders |
| BPlusTree.Insert | src/utils/bplustree.rs:292-313 | the source's insert keeps the tree well shaped; `BPlusTreeProofs.InsertFreshCorrect` states its effect on queries |
| BPlusTree.Upsert | src/utils/bplustree.rs:292-313 | the corrected insert keeps the tree well shaped; `BPlusTreeProofs.UpsertCorrect` states its effect on queries |
| BPlusTree.InsertAllWith | src/utils/bplustree.rs:427-430 | a run of inserts keeps the tree well shaped and its orders unchanged |
| BPlusTree.OrdersFor | src/utils/bplustree.rs:270-274 | each order is the largest count that fits a 4096-byte block: of keys for the inner order, of keys with values for the leaf order; both orders are at least 2 exactly when key and value sizes total at most 2023 |
| BPlusTreeProofs.InsertAtSorted | src/utils/bplustree.rs:104-106 | inserting a fresh key at its upper bound keeps the keys strictly sorted |
| BPlusTreeProofs.LeafQueryAt | src/utils/bplustree.rs:53-58 | in a sorted leaf the query for the key at an index returns the value at that index |
| BPlusTreeProofs.SplitLeafCorrect | src/utils/bplustree.rs:127-133 | splitting a valid overflowing leaf gives two valid halves on either side of the sibling's first key, and every query in range is answered as before by the half it is routed to |
| BPlusTreeProofs.SplitInnerCorrect | src/utils/bplustree.rs:134-139 | the same for an inner node, copied child included |
| BPlusTreeProofs.LeafInsertCorrect | src/utils/bplustree.rs:98-109 | a leaf insert of a new key, or a replacing insert, leaves valid leaves in which the key maps to the value and every other key maps as before |
| BPlusTreeProofs.NodeInsertCorrect | src/utils/bplustree.rs:98-125 | the same for a node of any height, with the leftmost key becoming the smaller of the old one and the new key |
| BPlusTreeProofs.NewTreeValid | src/utils/bplustree.rs:270-279 | a new tree satisfies the tree invariant |
| BPlusTreeProofs.PromotedRootCorrect | src/utils/bplustree.rs:299-311 | when the root splits, the new root has one key (the sibling's leftmost leaf key) and two children, the old root first; it is valid and answers every query with the update applied |
| BPlusTreeProofs.TreeInsertCorrect | src/utils/bplustree.rs:292-315 | inserting a new key (or replacing) keeps the tree valid; afterwards the key maps to the value and every other key as before |
| BPlusTreeProofs.InsertFreshCorrect | src/utils/bplustree.rs:292-315 | the source's insert of an absent key: the key then maps to its value and nothing else changes |
| BPlusTreeProofs.UpsertCorrect | src/utils/bplustree.rs:100-102 | the corrected insert (replace the value of a present key) keeps the tree valid and maps the key to the value, every other key as before |
| BPlusTreeProofs.LeftmostInRange | src/utils/bplustree.rs:44-51 | in a valid node the leftmost leaf's first key lies in the node's key range and, for an inner node, below its first separator |
| BPlusTreeProofs.InsertAllCorrect | src/utils/bplustree.rs:424-447 | after a run of inserts each key maps to the value of its last entry, or to what the tree held before when no entry has that key |
| BPlusTreeProofs.InsertEntriesCorrect | src/utils/bplustree.rs:424-447 | inserting "Entry i" for every i below n into a new tree, at any orders, leaves a valid tree that finds exactly those |
| BPlusTreeProofs.InsertTestCorrect | src/utils/bplustree.rs:424-447 | at the orders of `BPlusTree<u32, String>` (163 and 77), inserting keys 0..=500 finds "Entry i" for each and nothing for any other key |
| BPlusTreeProofs.InsertDuplicateShiftsValues | src/utils/bplustree.rs:100-102 | as written, re-inserting key 1 after keys 1 and 2 makes key 2 find key 1's old value |
| BPlusTreeProofs.UpsertDuplicateKeepsOthers | src/utils/bplustree.rs:100-102 | with the corrected insert the same sequence leaves key 2 with its own value |
| Playlist.ClusterOf | src/model/playlist.rs:61-71 | conversion to a cluster succeeds exactly for Live, Video and Series; otherwise it fails with "Cant convert " and the type's display name |
| Playlist.ClusterName | src/model/playlist.rs:45-59 | the cluster names "Live", "Video" and "Series", used by `Display` as well |
| Playlist.ItemTypeName | src/model/playlist.rs:97-118 | the display names; `Playlist.ItemTypeNamesDistinct` states when two types display alike |
| Playlist.ClusterRoundTrip | src/model/playlist.rs:61-95 | cluster to item type and back is the identity for Live and Video; Series becomes series-info, which does not convert back |
| Playlist.ItemTypeRoundTrip | src/model/playlist.rs:61-95 | item type to cluster and back is the identity, except that Series comes back as SeriesInfo |
| Playlist.ItemTypeNamesDistinct | src/model/playlist.rs:98-117 | two item types display alike exactly when they are equal or are both among Live, LiveHls and LiveUnknown |
| Playlist.FieldNames | src/model/playlist.rs:189-222 | every accessible field answers to its own name, and a name reaches a field only if it is that field's name or the alias `epg_id` |
| Playlist.GetField | src/model/playlist.rs:189-198 | unknown names read nothing; the plain string fields always read a value |
| Playlist.SetField | src/model/playlist.rs:200-218 | setting reports true exactly for a known name; a false report leaves the header unchanged |
| Playlist.HeaderByFields | src/model/playlist.rs:124-151 | a header is determined by its accessible fields and the fields no name reaches |
| Playlist.WriteThenRead | src/model/playlist.rs:200-218 | writing a field makes it read the value; every other field, accessible or not, is unchanged |
| Playlist.SetThenGet | src/model/playlist.rs:189-222 | setting a known name succeeds; then that name and its alias read the value, every other name reads as before, and hidden fields are untouched |
| Playlist.EpgAliases | src/model/playlist.rs:197-214 | `epg_id` and `epg_channel_id` read and set the same field, and setting stores Some(value) |
| Playlist.UnknownField | src/model/playlist.rs:198-217 | an unknown name reads None and setting it returns false and changes nothing |
| Playlist.VirtualIdIsUnknown | src/model/playlist.rs:222 | `virtual_id` is left out of the accessor: not readable, not settable |
| Playlist.FirstWithId | src/model/playlist.rs:27-28 | the index of the first group with the id, and None exactly when no group has it |
| Playlist.UpdatePlaylist | src/model/playlist.rs:26-33 | the channels are appended, in order, to the first group with the same id and to no other; with no such group nothing changes |
| Playlist.ToM3uShape | src/model/playlist.rs:245-264 | the `#EXTINF` line is the head, then every optional attribute with a non-empty value in order (logos only when not ignored), then ",title", a newline and the override url or the item's own; it starts with the head and ends with the title and url |
| Playlist.ToM3u | src/model/playlist.rs:245-264 | the M3U text of an item; its shape is what `Playlist.ToM3uShape` states |
| Playlist.AppendAllRenders | src/model/playlist.rs:178-186 | the field macro appends exactly the rendering of the non-empty attributes |
| Playlist.Present | src/model/playlist.rs:180-182 | an attribute is rendered exactly when it is in the list and its value is non-empty |
| Playlist.RenderPresentIsRenderOfPresent | src/model/playlist.rs:178-186 | skipping empty attributes while rendering is rendering the non-empty ones, order kept |
| Playlist.AttributeTableLogos | src/model/playlist.rs:254-262 | `tvg-logo` and `tvg-logo-small` are emitted only when logos are not ignored; the other attributes always take part |
| Playlist.ItemToXtream | src/model/playlist.rs:322-344 | the Xtream provider id is the header id parsed as u32, or 0 when it does not parse |
| Playlist.ItemToM3u | src/model/playlist.rs:300-320 | the M3U form copies the header's fields; `Playlist.FormsAgree` relates it to the Xtream form |
| Playlist.FormsAgree | src/model/playlist.rs:300-344 | the M3U and Xtream forms copy the same header fields, and the Xtream provider id is the M3U one parsed |
| Playlist.ProviderIdOfDecimal | src/model/playlist.rs:324 | an id that is a u32 written out becomes that provider id |
| Playlist.ProviderIdOfNonDigit | src/model/playlist.rs:324 | an id with a non-digit after its first character gives provider id 0 |
| Playlist.ItemLine | src/model/playlist.rs:300-320 | an item's M3U line starts with its EPG id, name and group and ends with its title and url |
| M3uProcessing.SanitizeForFilename | src/m3u_processing.rs:68-72 | the result is no longer than the text and holds only alphanumerics and whitespace, or '_' with underscores; with underscores it holds no whitespace |
| M3uProcessing.SanitizeKeepsOrder | src/m3u_processing.rs:68-72 | without underscores the result is a subsequence of the text holding each kept character as often as the text and nothing else |
| M3uProcessing.SanitizeUnderscores | src/m3u_processing.rs:69-71 | with underscores the result is the plain one with each whitespace character turned into '_' |
| M3uProcessing.SanitizeIdempotent | src/m3u_processing.rs:68-72 | without underscores sanitising twice equals sanitising once |
| M3uProcessing.CompareSymmetric | src/m3u_processing.rs:131 | comparing titles the other way round reverses the ordering, and only equal titles compare equal |
| M3uProcessing.CompareTransitive | src/m3u_processing.rs:131 | the title order is transitive |
| M3uProcessing.InOrderTotal | src/m3u_processing.rs:131-135 | the comparator and the intended order agree, with Desc reversed |
| M3uProcessing.InOrderTransitive | src/m3u_processing.rs:131-135 | ascending and descending title order are both transitive |
| M3uProcessing.InsertSorted | src/m3u_processing.rs:130-136 | the insertion step adds exactly the one group |
| M3uProcessing.InsertSortedKeepsOrder | src/m3u_processing.rs:130-136 | inserting into a sorted list keeps it sorted |
| M3uProcessing.SortBy | src/m3u_processing.rs:130-136 | the result is a permutation of the groups ordered by title |
| M3uProcessing.SortPlaylist | src/m3u_processing.rs:128-138 | without a sort the groups are unchanged; otherwise they are a permutation, non-decreasing by title for Asc and non-increasing for Desc |
| M3uProcessing.DescendingIsReversedAscending | src/m3u_processing.rs:133-136 | a list in descending title order is, read backwards, in ascending order, and conversely |
| M3uProcessing.RenamePlaylist | src/m3u_processing.rs:140-158 | as many groups in the same order; each differs from its input only in the title, which is rewritten by the group rules in order |
| M3uProcessing.RenameWithoutGroupRules | src/m3u_processing.rs:145-152 | rules for item fields leave the groups unchanged |
| M3uProcessing.FieldValueIsHeaderField | src/m3u_processing.rs:160-178 | the rename fields read the header's group, name, title and url; setting the url changes nothing; setting another field writes that header field, which then reads the value |
| M3uProcessing.ExecRename | src/m3u_processing.rs:185-197 | renaming yields nothing exactly when there are no rules |
| M3uProcessing.ApplyRulesAppend | src/m3u_processing.rs:188-193 | the rules act left to right: a list of rules is its first part followed by the rest |
| M3uProcessing.ApplyRulesFrame | src/m3u_processing.rs:170-193 | renaming changes only group, name and title; the url and every other field are kept |
| M3uProcessing.ExecOneRule | src/m3u_processing.rs:185-197 | one rule on group, name or title stores the replacement of that field's old value |
| XmltvApi.Split | src/api/xmltv_api.rs:75 | `split` yields one more piece than there are separators, none holding the separator |
| XmltvApi.JoinSplit | src/api/xmltv_api.rs:75 | joining the pieces with the separator gives the text back |
| XmltvApi.SplitJoin | src/api/xmltv_api.rs:75 | pieces free of the separator are what splitting their join yields |
| XmltvApi.TrimSigns | src/api/xmltv_api.rs:71 | all leading '-' and '+' are removed, and only they |
| XmltvApi.ParseTimeshiftAsWritten | src/api/xmltv_api.rs:68-103 | as written, a result is never 0 |
| XmltvApi.ParseTimeshift | src/api/xmltv_api.rs:68-103 | no setting gives None; a setting gives a result exactly when its total minutes are positive and within i32; a result is non-zero, negative exactly when the setting starts with '-', and is the sign times hours*60 + minutes |
| XmltvApi.AsWrittenAgreesInRange | src/api/xmltv_api.rs:73-95 | where no intermediate value leaves i32 the written and corrected readings agree |
| XmltvApi.ComponentsColon | src/api/xmltv_api.rs:73-90 | "h:m" has components h and m, an empty hour part counting as 0 |
| XmltvApi.TimeshiftHoursMinutes | src/api/xmltv_api.rs:68-103 | a sign, hours, ':' and minutes written out read back as plus or minus hours*60 + minutes |
| XmltvApi.TimeshiftHours | src/api/xmltv_api.rs:91-95 | a sign and a whole number of hours read back as plus or minus hours*60 |
| XmltvApi.TimeshiftNegativeHoursMinutes | src/api/xmltv_api.rs:74 | "-2:30" is -150 |
| XmltvApi.TimeshiftPlusHours | src/api/xmltv_api.rs:92 | "+1" is 60 |
| XmltvApi.TimeshiftZeroHours | src/api/xmltv_api.rs:74 | "+0:15" is 15 |
| XmltvApi.TimeshiftMinutesOnly | src/api/xmltv_api.rs:74-80 | ":45" is 45 |
| XmltvApi.TimeshiftUnparsable | src/api/xmltv_api.rs:80-94 | an unparsable component counts as 0: "abc" is None and "x:30" is 30 |
| XmltvApi.TimeshiftZero | src/api/xmltv_api.rs:68-101 | no setting, or a zero one, gives None |
| XmltvApi.TimeshiftRepeatedSigns | src/api/xmltv_api.rs:70-71 | every leading sign is stripped and only the first decides: "--+2" is -120, "+-2" is 120 |
| XmltvApi.TimeshiftOverflowWraps | src/api/xmltv_api.rs:94 | as written "71582789" wraps to 44 minutes; the corrected reading rejects it |
| XmltvApi.TimeCorrect | src/api/xmltv_api.rs:23-28 | a timestamp without exactly one space comes back unchanged |
| XmltvApi.TimeCorrectKeepsRest | src/api/xmltv_api.rs:31-36 | when the date moves, the result is again "date rest", with the shifted date and the original rest verbatim |
| XmltvApi.TimeCorrectUnparsedDate | src/api/xmltv_api.rs:31 | a date that does not parse leaves the timestamp unchanged |
| FileUtils.LastDot | src/utils/file_utils.rs:174 | the position of the last '.' of a name, or None when it has none |
| FileUtils.FileName | src/utils/file_utils.rs:149 | `Path::file_name`: the last component, and None exactly when there is none or it is ".." |
| FileUtils.Stem | src/utils/file_utils.rs:155 | `Path::file_stem`: present exactly when the file name is; with `FileUtils.StemAndExtension` and the contract of `FileUtils.Extension` it is the name up to its last dot that does not lead the name, or the whole name when there is none |
| FileUtils.Extension | src/utils/file_utils.rs:173 | `Path::extension`: present only when the file name is, and then exactly when the name has a dot after its first character; the extension holds no dot, so it is the text after the last one |
| FileUtils.WithFileName | src/utils/file_utils.rs:151 | `Path::with_file_name`: the new name is the last component; it replaces a file name, and after a ".." it is pushed as a new component |
| FileUtils.ParentComponent | src/utils/file_utils.rs:149-155 | a path ending in ".." has no file name, stem or extension, keeps its text under `with_extension`, and gets a new file name pushed after the ".." |
| FileUtils.StemAndExtension | src/utils/file_utils.rs:173-174 | a file name is its non-empty stem followed by '.' and the extension when there is one |
| FileUtils.WithExtension | src/utils/file_utils.rs:155 | the directory is kept, and a path without a file name is unchanged |
| FileUtils.WithExtensionSets | src/utils/file_utils.rs:155 | a non-empty extension without dots becomes the extension and the stem is kept |
| FileUtils.WithEmptyExtension | src/utils/file_utils.rs:174 | an empty extension cuts the name back to its stem |
| FileUtils.AddPrefixToFilename | src/utils/file_utils.rs:148-156 | the directory is that of `with_file_name`; without an extension a file name gets the prefix in front and a path without one gets the prefix as its new name |
| FileUtils.AddPrefixProperties | src/utils/file_utils.rs:148-156 | the new name starts with the prefix and continues with the old file name (or nothing); with an extension given, the stem is that of the prefixed name and the extension is the one given |
| FileUtils.AppendExtension | src/utils/file_utils.rs:172-175 | the directory is kept |
| FileUtils.AppendExtensionSets | src/utils/file_utils.rs:172-175 | the extension becomes the old one (or nothing) directly followed by the new text, and the stem is kept |
| FileUtils.SanitizeFilename | src/utils/file_utils.rs:178-183 | same length; every character is alphanumeric, '_' or '-'; allowed characters stay where they are and every other one becomes '_' |
| FileUtils.SanitizeFixedPoints | src/utils/file_utils.rs:178-183 | a name is unchanged exactly when all its characters are allowed |
| FileUtils.SanitizeFilenameIdempotent | src/utils/file_utils.rs:178-183 | sanitising twice equals sanitising once |
| FileUtils.GetFilePath | src/utils/file_utils.rs:133-146 | no path gives None; an absolute path comes back unchanged; a relative one is joined to the working directory and absolutized, or kept when that fails |
| JsonUtils.AsI64 | src/utils/json_utils.rs:77 | `as_i64` yields a value within i64, never for a float, and for an unsigned number exactly when it fits |
| JsonUtils.ReadSkippingWs | src/utils/json_utils.rs:10-18 | the first byte that is not ASCII whitespace, with everything up to it consumed; an UnexpectedEof error, with the input used up, exactly when only whitespace remains |
| JsonUtils.ReadAfterWhitespace | src/utils/json_utils.rs:10-18 | whitespace, a byte that is not whitespace, and the rest: that byte is read and the rest remains |
| JsonUtils.DeserializeSingle | src/utils/json_utils.rs:24-27 | the element is what the parser makes of the stream, and what is left is a suffix of it |
| JsonUtils.DeserializeAfterPeek | src/utils/json_utils.rs:43-47 | the element is parsed from the peeked byte followed by the rest of the stream |
| JsonUtils.YieldNextObj | src/utils/json_utils.rs:29-53 | every call sets `at_start`, never grows the input, and consumes input unless it hits the end of the stream |
| JsonUtils.Next | src/utils/json_utils.rs:60 | the iterator ends exactly on `Ok(None)` |
| JsonUtils.FirstCallNeedsBracket | src/utils/json_utils.rs:41-50 | on the first call a non-whitespace byte other than '[' fails with "`[` not found" |
| JsonUtils.EmptyArrayEnds | src/utils/json_utils.rs:41-45 | '[' and ']' with only whitespace between them end the iterator without elements |
| JsonUtils.FirstElementKeepsPeek | src/utils/json_utils.rs:43-47 | the first element is parsed starting from the peeked byte, so that byte is not lost |
| JsonUtils.LaterCall | src/utils/json_utils.rs:33-38 | on later calls ',' parses an element, ']' ends the iterator, and any other byte fails with "`,` or `]` not found" |
| JsonUtils.ElementsAreItems | src/utils/json_utils.rs:56-61 | the walk yields, call by call, what the iterator yields, and ends where it does unless the end of the stream is hit |
| JsonUtils.JsonIterArray | src/utils/json_utils.rs:56-61 | the items are, call by call, what the iterator returns; only the last can be the end-of-stream error, and when it is not, the next call returns None |
| JsonUtils.ElementsFused | src/utils/json_utils.rs:56-61 | the walk from any reader state is the fused run of the iterator from that state |
| JsonUtils.EofOnlyLast | src/utils/json_utils.rs:56-61 | the fused walk ends at the first end-of-stream error, so no earlier item is one |
| JsonUtils.EofRepeatsForever | src/utils/json_utils.rs:60 | as written, at the end of the stream every call returns the same UnexpectedEof and leaves the state as it was |
| JsonUtils.EmptyFileNeverEnds | src/utils/json_utils.rs:60-72 | as written, an empty or whitespace-only file gives an endless run of UnexpectedEof items; the walk stops after the first |
| JsonUtils.FilterEntries | src/utils/json_utils.rs:72-84 | the filter loop returns an entry exactly when it was read successfully and passes the filter, and no more entries than there are items |
| JsonUtils.FilterEntriesAppend | src/utils/json_utils.rs:72-84 | the loop distributes over concatenation, so the order of entries is kept |
| JsonUtils.JsonFilterFile | src/utils/json_utils.rs:63-87 | a missing file gives no entries; for a present file an entry is returned exactly when the array walk read it and it passes the filter, under the number comparison as written or the corrected one |
| JsonUtils.EmptyFilterKeepsObjects | src/utils/json_utils.rs:73-74 | an empty filter keeps exactly the objects |
| JsonUtils.FieldMatchesNumber | src/utils/json_utils.rs:77 | with the correction, the decimal text of an i64 matches a number field exactly when the number is that i64, and a value that does not parse, or a float field, never matches |
| JsonUtils.FieldMatchesRefines | src/utils/json_utils.rs:75-79 | the corrected test implies the written one, and the two agree whenever the value parses as i64 |
| JsonUtils.FieldMatchesDecimal | src/utils/json_utils.rs:77 | a value that is an integer written out matches a signed number field holding that integer |
| JsonUtils.FieldMatchesDecimalUnsigned | src/utils/json_utils.rs:77 | an unsigned number field that fits an i64 matches its decimal text, and one above the i64 range matches no value |
| JsonUtils.UnparsableValueMatchesFloat | src/utils/json_utils.rs:77 | as written, the filter {"x": "abc"} keeps an entry whose "x" is 4.5; with the correction it does not |
| RustInt.ParseInt | src/model/playlist.rs:324 | `str::parse` for integer types: a result lies in the type's range, and a leading '-' only for signed types with a non-positive value |
| RustInt.ParseI32 | src/api/xmltv_api.rs:93 | `str::parse::<i32>`: a result lies in the i32 range |
| RustInt.ParseU32 | src/model/playlist.rs:324 | `str::parse::<u32>`: a result lies in the u32 range and never comes from text with a leading '-' |
| RustInt.ParseI64 | src/utils/json_utils.rs:77 | `str::parse::<i64>`: a result lies in the i64 range |
| RustInt.NatToDecimalDigits | src/model/playlist.rs:324 | a number written out is non-empty, all digits, and has that value |
| RustInt.ParseToDecimal | src/model/playlist.rs:324 | parsing a number written out gives the number back, for every value of the type |
| RustInt.ParseRejectsNonDigit | src/model/playlist.rs:324 | a non-digit after the optional sign makes the parse fail |
| RustInt.WrapI32 | src/api/xmltv_api.rs:90-94 | two's-complement wrap-around: within i32, congruent modulo 2^32, and the identity in range |

## Left out

- B+ tree block serialisation, deserialisation and the `BPlusTreeQuery` file reads: file I/O and bincode, a foreign encoder. The orders are parameters; `OrdersFor` only gives the `size_of` arithmetic.
- B+ tree keys are integers instead of any `Ord` type.
- `write_m3u`, `write_m3u_playlist`, `write_strm_playlist` and `process_targets`: filesystem and console I/O.
- `is_valid`: it delegates to a filter engine that is not part of this model.
- `Regex::replace_all` is a parameter. The `unwrap` of a missing regex is not modelled, because rules are compiled when the configuration loads.
- The chrono parse, add and format inside `time_correct` is a parameter.
- The HTTP handlers, `serve_epg*` and `get_epg_path_for_target*`: actix, XML streaming, gzip and the filesystem.
- Everything in `file_utils.rs` that touches the environment, the clock or the filesystem: `get_exe_path`, `get_default_*`, `get_working_path`, `persist_file`, `open_file`, `path_exists`, `prepare_persist_path`. `absolutize` is a parameter of `GetFilePath`.
- FileUtils.WithFileName: a new name holding '/' or an empty new name is not modelled. Rust would push further components or pop the old name; here the text simply becomes the last component.
- FileUtils.Path: a path is already split into directory and last component, so Rust's normalisation of a trailing "." and of repeated separators is not modelled.
- `deserialize_single` and serde_json are a parameter that reports a result and the bytes consumed. `json_write_documents_to_file` is not modelled.
- `gen_uuid` (hashing), `extract_id_from_url` and `to_doc`: foreign calls.
- `serde_json::to_string` of the extra properties is a parameter of `ItemToXtream`.
- `src/utils/mod.rs` only declares modules. The download, request and file-lock modules it names are not part of this model.
- RustChar.IsAlphanumeric: ASCII only. `char::is_alphanumeric` also accepts non-ASCII letters and digits; the Unicode tables are not modelled. Whitespace uses the full Unicode White_Space list.
- M3uProcessing.SortPlaylist: stability (`sort_by` keeps groups with equal titles in order) is not stated, though the insertion sort used has it.
- M3uProcessing.RenamePlaylist and M3uProcessing.ExecRename work on the playlist types of `Playlist`. `m3u_processing.rs` uses an older item type with its own `url` field, which is not part of this model; here the url is the header's.
- BPlusTree.InsertWith and BPlusTreeProofs.TreeInsertCorrect: the query guarantee under the source's duplicate handling is proved only for keys not yet in the tree, because for present keys the source misaligns values (see Findings).
- JsonUtils.JsonIterArray stops after the first UnexpectedEof error instead of repeating it forever (see Findings).

## Findings

| source | as written | input that shows it | evidently intended | confidence | as-written member | corrected member |
|---|---|---|---|---|---|---|
| src/utils/bplustree.rs:100-102 | re-inserting a present key inserts its value into `values` at the key's index, which shifts every later value one slot right while the keys stay | insert 1→"a", 2→"b", 1→"c" into a new tree: key 2 then finds "a" | replace the value at that index | not executed | BPlusTreeProofs.InsertDuplicateShiftsValues | BPlusTreeProofs.UpsertCorrect |
| src/api/xmltv_api.rs:90-94 | `hours * 60 + minutes` and `num * 60` are i32 operations, which wrap around in a release build | timeshift "71582789" is 4294967340 minutes and reads as 44 | reject a shift that does not fit the result | not executed | XmltvApi.TimeshiftOverflowWraps | XmltvApi.ParseTimeshift |
| src/utils/json_utils.rs:77 | a number field is compared through `value.parse::<i64>().ok() == n.as_i64()`, so a value that does not parse matches any number that is not an i64 | filter {"x": "abc"} keeps {"x": 4.5} | a number matches only the integer the value denotes | not executed | JsonUtils.UnparsableValueMatchesFloat | JsonUtils.FieldMatchesNumber |
| src/utils/json_utils.rs:60-72 | at the end of the stream every call of the iterator returns an UnexpectedEof error and nothing ends it; `flatten` drops the errors, so the filter loop never ends | an empty or whitespace-only file (or one cut off inside the array) | end the iteration at the first error from the end of the stream | not executed | JsonUtils.EmptyFileNeverEnds | JsonUtils.ElementsAreItems |
