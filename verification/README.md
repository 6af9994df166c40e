# A verified model of Cryptopower's stateful core

The project models the parts of Cryptopower where a mistake is easy to make and hard to see,
and proves what they promise for every input, every run and every interleaving.

- **Nested buckets on a flat store** (`Wrappers`, `Keys`, `BadgerStore`, `BucketLayout`, `BucketTree`, `BucketOps`,
  `BucketRun`, `BucketProperties`, `Buckets`, `Cursors`). The wallet database interface promises a tree of
  buckets; the driver has one byte-ordered map. `BadgerStore` is that map with snapshot transactions of
  bounded size and iterators over the sorted keys. `Buckets` and `Cursors` are the driver's own classes,
  each method proved against the functions of `BucketOps`. `BucketTree` is the tree the interface promises,
  `BucketRun` proves that the driver simulates it, call by call and over whole runs, and `BucketProperties`
  says what callers may rely on and gives exact conditions where they may not.
- **Styled text** (`Scanning`, `StyledText`, `StyledRender`, `StyledMarkers`, `StyledTree`, `StyledPieces`, `StyledLabels`). A tree of styled elements is
  flattened into inline markers; a one-pass character machine with a style stack reads them back. The
  reference is the nearest definition on the way up the tree.
- **Markdown tags** (`MarkdownTags`). The same idea with a simpler tag language.
- **Protocols** (`RefreshMonitor`, `PageStacks`, `PageLifecycle`, `Windows`, `PageCallbacks`, `NotificationGuard`, `OrderSync`,
  `OrderScheduler`). Interleavings are runs of a state machine; objects with fields are classes.
- **Layout and progress** (`GridWraps`, `GridWrapProperties`, `SyncProgress`).

Where the code and its own comments disagree, the model follows the code:

- `dropBucket` (bucket.go:144-147) says that it deletes all data and returns nil for a missing bucket. It
  deletes direct entries only, reports a missing bucket as an error, and commits on the way.
- `Rollback` (db.go:139-140) says that it undoes all changes. It does not undo what `dropBucket` committed;
  `BucketProperties.KeepsDurableIff` and `RollbackUndoes` say exactly what it undoes.
- `PushAndNavigate` (pagestack.go:36) speaks of all other instances; the loop removes the first. Under the
  lifecycle invariant there is never a second.
- `checkForUpdates` (sync.go:119) speaks of uncompleted orders; it looks up every order of the server.

Two side conditions of the bucket layout are made precise. `BucketTree.Disciplined` is the naming rule: where
the prefix of bucket q extends that of bucket p by r, bucket p uses no name that starts with r, except r itself
as the name of its own child q. And a bucket's prefix has at most 255 bytes, because one byte stores its length.

## Model

| member | source | states |
|---|---|---|
| Keys.LessIsByteOrder | libwallet/badgerdb/bucket.go:279 | the order of keys is that of bytes.Compare: a proper prefix comes first, otherwise the smaller byte at the first difference |
| Keys.SortedAscends | libwallet/badgerdb/bucket.go:279 | the sorted keys of a store are all of them, strictly ascending in that order |
| Keys.AscendingUnique | libwallet/badgerdb/bucket.go:279 | that order is determined by the key set alone |
| Keys.PrefixConvex | libwallet/badgerdb/bucket.go:279 | keys with a common prefix are contiguous in byte order, so a scan may stop at the first key without it |
| BadgerStore.Txn.Modify | libwallet/badgerdb/bucket.go:250 | a write changes one key of the transaction's view and uses up one unit of its size, or fails and changes nothing |
| BadgerStore.Txn.Commit | libwallet/badgerdb/db.go:132 | the durable store becomes its old value overlaid with the pending writes, once; a conflict is possible only if another transaction has committed since, and changes nothing durable |
| BadgerStore.Iterator.Seek | libwallet/badgerdb/db.go:366 | lands on the first key that is not below the given one |
| BucketLayout.WritesAreOwned | libwallet/badgerdb/bucket.go:65-78 | every marker and every entry written satisfies the ownership invariant for any prefix length, truncated or not |
| BucketLayout.ViewsDisjoint | libwallet/badgerdb/bucket.go:291-292 | no stored key is a direct entry of two different prefixes |
| BucketLayout.DirectExtends | libwallet/badgerdb/bucket.go:291-292 | a direct entry's key properly extends the prefix that owns it |
| BucketLayout.SeenAll | libwallet/badgerdb/bucket.go:278-303 | a scan that has left the prefix has seen exactly the bucket's listing |
| BucketLayout.SweepAll | libwallet/badgerdb/bucket.go:171-198 | deleting during the scan removes exactly the scanned store's direct entries |
| BucketLayout.TakenAll | libwallet/badgerdb/db.go:101-113 | a scan whose deletions fail once the transaction is full removes all direct entries exactly if they fit |
| BucketLayout.ListingByName | libwallet/badgerdb/bucket.go:271-305 | a listing has one entry per direct key, by name in ascending order, with its name and value or the lack of one |
| BucketLayout.ListingInByteOrder | libwallet/badgerdb/bucket.go:271-305 | of two entries of a listing the earlier one's name comes first under bytes.Compare, so none comes twice |
| BucketTree.Lookup | libwallet/badgerdb/bucket.go:73-78 | under collision-free names a path is in the tree exactly if its flat key is stored, with the encoded node |
| BucketTree.DirectIsChild | libwallet/badgerdb/bucket.go:291-292 | the ownership byte recovers the parent: a key is a direct entry of a bucket exactly if its node is a child |
| BucketTree.EncodedOwner | libwallet/badgerdb/bucket.go:50 | the owner of an encoded node is its parent's prefix, and a top-level marker owns itself |
| BucketTree.UpdateNode | libwallet/badgerdb/bucket.go:121 | storing an encoded node is updating one node of the tree |
| BucketTree.RemoveNodes | libwallet/badgerdb/bucket.go:171-209 | removing flat keys is removing the nodes at those keys |
| BucketTree.SameChildren | libwallet/badgerdb/bucket.go:279-303 | the flat scan finds exactly the names of a node's children |
| BucketTree.SameListing | libwallet/badgerdb/bucket.go:271-305 | the flat scan and the tree list a bucket's contents alike, order included |
| BucketTree.SamePrefix | libwallet/badgerdb/bucket.go:112-117 | under the naming rule two buckets with the same prefix are the same bucket |
| BucketTree.DisciplineIsCollisionFree | libwallet/badgerdb/bucket.go:73-78 | under the naming rule no two paths share a flat key |
| BucketTree.DisciplineIsNaming | libwallet/badgerdb/bucket.go:65-78 | the naming rule and prefixes of at most 255 bytes are enough for all the refinement needs |
| BucketRun.StepSimulates | libwallet/badgerdb/bucket.go:107-305 | every call answers as the tree does and leads to a store that again holds exactly the tree |
| BucketRun.StepCreateNested | libwallet/badgerdb/bucket.go:107-142 | creating a nested bucket on the flat store is creating a child node, error cases included |
| BucketRun.StepDeleteTop | libwallet/badgerdb/db.go:86-121 | deleting a top-level bucket removes its node and its children's nodes |
| BucketRun.StepDrop | libwallet/badgerdb/bucket.go:148-215 | dropping a nested bucket does the same, with the children taken from the durable tree and the rest committed |
| BucketRun.StepLookups | libwallet/badgerdb/bucket.go:217-235 | Get and opening a nested bucket answer from the tree's node |
| BucketRun.RunSimulates | libwallet/badgerdb/bucket.go:43-305 | the simulation holds over every run, with equal answers throughout |
| BucketProperties.DriverIsTree | libwallet/badgerdb/bucket.go:43-305 | from the empty database every run with disciplined names and short prefixes answers exactly as a tree of buckets |
| BucketProperties.StepOwned | libwallet/badgerdb/bucket.go:65-78 | every call keeps the ownership invariant |
| BucketProperties.RunOwned | libwallet/badgerdb/bucket.go:291-292 | in every reachable store, whatever the names, the owner byte never exceeds the key length and spans a whole key for markers only |
| BucketProperties.OnlyTopsOwnThemselves | libwallet/badgerdb/bucket.go:50 | from the empty database, an owner byte that spans its whole key belongs to a marker whose key is the name of a top-level bucket the run created |
| BucketProperties.UntouchedRun | libwallet/badgerdb/bucket.go:217-269 | a run that does not touch a node leaves it as it is |
| BucketProperties.UntouchedGet | libwallet/badgerdb/bucket.go:217-235 | Get still answers with the tree's content after any run that leaves the entry alone |
| BucketProperties.LastPutWins | libwallet/badgerdb/bucket.go:217-253 | Get returns the last value Put, whatever other calls and commits come between |
| BucketProperties.DeletedContentsReturn | libwallet/badgerdb/db.go:86-121 | deleting a bucket keeps what its nested buckets hold: re-creating the buckets brings an entry back |
| BucketProperties.ListingFrame | libwallet/badgerdb/bucket.go:237-253 | writing one key changes no listing that the key does not belong to before or after |
| BucketProperties.PutDisturbsIff | libwallet/badgerdb/bucket.go:237-253 | for any names, a Put through one bucket changes another bucket's listing exactly if its flat key already is an entry there |
| BucketProperties.CollisionExists | libwallet/badgerdb/bucket.go:73-78 | a concrete run in which a Put through a bucket overwrites an entry of its nested bucket |
| BucketProperties.PutVisibleIffShort | libwallet/badgerdb/bucket.go:65-71 | Get always finds a value just Put, but scans list it exactly if the prefix has at most 255 bytes |
| BucketProperties.LongPrefixOwner | libwallet/badgerdb/bucket.go:65-71 | an entry under a longer prefix is listed in the bucket named by the prefix's first length mod 256 bytes |
| BucketProperties.AcceptedKeys | libwallet/badgerdb/bucket.go:73-78 | keys of 1 to 65378 bytes are accepted, all others refused without effect |
| BucketProperties.EntryIsNoBucket | libwallet/badgerdb/bucket.go:59-61 | the flat key of a plain entry is refused wherever a bucket is asked for, at the top and below, and nothing changes |
| BucketProperties.RefusalsOf | libwallet/badgerdb/bucket.go:107-165 | what is missing is reported missing, what exists existing, an empty top-level name invalid, each without effect |
| BucketProperties.NestedOpensAtTop | libwallet/badgerdb/bucket.go:43-63 | the flat key of a nested bucket opens as a top-level bucket too |
| BucketProperties.DeleteTopIsSubtreeIff | libwallet/badgerdb/db.go:86-121 | deleting a top-level bucket removes its whole subtree exactly if no bucket directly inside it has contents |
| BucketProperties.DropIsSubtreeIff | libwallet/badgerdb/bucket.go:148-215 | dropping a nested bucket removes its whole subtree from the view exactly if everything in it lies directly inside and is durable; when the view is the durable tree, exactly if no bucket directly inside has contents |
| BucketProperties.DropExactIff | libwallet/badgerdb/bucket.go:148-215 | dropping removes exactly the marker and the direct entries precisely if the durable store and the view agree on which of the view's keys those are |
| BucketProperties.DropFrame | libwallet/badgerdb/bucket.go:148-215 | with nothing uncommitted under the bucket, every other bucket keeps its direct entries and its listing, nested contents and siblings with longer names included |
| BucketProperties.RemovalFrame | libwallet/badgerdb/bucket.go:171-209 | removing a marker and its direct entries takes from any other bucket at most that marker |
| BucketProperties.DeleteTopFrame | libwallet/badgerdb/db.go:86-121 | the same frame for top-level deletion, on the transaction's own view |
| BucketProperties.DropSurvivesRollback | libwallet/badgerdb/bucket.go:202-209 | a rollback after a drop restores the marker only, and what was pending before the drop is durable; the durable store is as before the drop exactly if nothing was pending and the bucket had no durable entries |
| BucketProperties.KeepsDurableIff | libwallet/badgerdb/db.go:127-151 | a call leaves the durable store alone exactly if it is no commit with pending changes and no successful drop, or a drop with nothing pending and no durable entries |
| BucketProperties.RollbackUndoes | libwallet/badgerdb/db.go:139-151 | a rollback undoes every run of such calls, in particular every run without a commit and a successful drop |
| Buckets.Transaction.ReadWriteBucket | libwallet/badgerdb/db.go:56-71 | opens a bucket exactly if the database is open, the transaction not discarded and the key carries a marker, and records the handle |
| Buckets.Transaction.CreateTopLevelBucket | libwallet/badgerdb/db.go:73-84 | agrees with the flat store's create in answer and view; fails without effect on a closed database, a discarded transaction, or a full one that would have to write |
| Buckets.Transaction.DeleteTopLevelBucket | libwallet/badgerdb/db.go:86-121 | the marker and direct entries of the view are gone exactly if the transaction had room for all those deletions; errors change nothing |
| Buckets.Transaction.DeleteEntries | libwallet/badgerdb/db.go:101-113 | the scan deletes all direct entries exactly if they fit into the transaction |
| Buckets.Transaction.Commit | libwallet/badgerdb/db.go:127-137 | the durable store takes the pending writes; an invalid commit changes nothing at all, and a conflict, possible only after another transaction's commit, nothing durable |
| Buckets.Transaction.Rollback | libwallet/badgerdb/db.go:143-151 | discards once, never touching the durable store |
| Buckets.MarkerFirst | libwallet/badgerdb/db.go:99-113 | deleting the marker before scanning for its entries leaves the same entries to find |
| Buckets.WithoutFirstAt | libwallet/badgerdb/db.go:114-119 | of the open handles exactly the first with the deleted prefix is forgotten |
| Buckets.Bucket.CreateBucket | libwallet/badgerdb/bucket.go:107-142 | agrees with the flat store's nested create, for both the strict and the lenient form; fails without effect where the write it needs is refused |
| Buckets.Bucket.NestedReadWriteBucket | libwallet/badgerdb/db.go:160-184 | opens a nested bucket exactly if its key carries a marker, the database is open and the transaction not discarded |
| Buckets.Bucket.Get | libwallet/badgerdb/bucket.go:217-235 | the stored value without its owner byte, and nothing for a missing, empty or overlong key, a closed database or a discarded transaction |
| Buckets.Bucket.Put | libwallet/badgerdb/bucket.go:237-253 | agrees with the flat store's put, and keeps ownership |
| Buckets.Bucket.Delete | libwallet/badgerdb/bucket.go:255-269 | agrees with the flat store's delete; a missing key is no error, a refused write is |
| Buckets.Bucket.ForEach | libwallet/badgerdb/bucket.go:271-305 | visits the listing in byte order of the names, up to and including the first entry whose visitor fails |
| Buckets.Bucket.DeleteNestedBucket | libwallet/badgerdb/db.go:228-238 | refuses a missing key, unlike an empty one, which addresses the bucket itself; otherwise drops the bucket |
| Buckets.Bucket.DropBucket | libwallet/badgerdb/bucket.go:148-215 | the outcome is the same for every transaction size, hence however often the transaction is committed on the way; errors change nothing, and a conflict, possible only after another transaction's commit, nothing durable |
| Buckets.Bucket.DropEntries | libwallet/badgerdb/bucket.go:171-198 | what a commit would make durable loses exactly the scanned direct entries, unless an intermediate commit conflicts with another transaction |
| Buckets.Bucket.DeleteRetrying | libwallet/badgerdb/bucket.go:184-196 | the retry loop ends with the key deleted from what will be durable and everything else kept |
| Cursors.Cursor.First | libwallet/badgerdb/db.go:360-393 | rests on the bucket's first direct entry and yields it |
| Cursors.Cursor.Next | libwallet/badgerdb/db.go:437-473 | moves on to the next direct entry over any number of foreign keys, and terminates |
| Cursors.Cursor.Seek | libwallet/badgerdb/db.go:526-562 | yields the first direct entry not below the key and rests on it, so that Next goes on from there; an empty key yields and rests on a top-level bucket's own marker; a closed database or an overlong key moves nothing |
| Cursors.Cursor.Delete | libwallet/badgerdb/db.go:341-355 | deletes the key under the iterator unless it is a marker or the write is refused; past the bucket it succeeds without effect, on a closed database it fails without effect |
| Cursors.Cursor.Drain | libwallet/badgerdb/db.go:360-473 | First followed by Next until the end yields exactly what ForEach lists |
| Cursors.Cursor.DrainFrom | libwallet/badgerdb/db.go:437-562 | Seek followed by Next until the end yields exactly the entries not below the key, in order, after the marker of a top-level bucket if the key is empty |
| Cursors.ComingFromSeek | libwallet/badgerdb/db.go:539-561 | what is still to come from a seek position are the entries of the listing not below the name |
| Cursors.RestingPlace | libwallet/badgerdb/db.go:451-472 | from any position the cursor comes to rest on the first entry still to come |
| Cursors.RemainingAtStart | libwallet/badgerdb/db.go:365-369 | from the bucket's prefix on, the entries still to come are the whole listing |
| Cursors.SeekResult | libwallet/badgerdb/db.go:535-561 | the entry reached from a seek position is the first of the listing not below the name |
| Cursors.MarkerPosition | libwallet/badgerdb/db.go:539-545 | seeking lands on the bucket's own marker exactly for the empty name |
| StyledText.SplitIs | ui/renderers/html.go:305-310 | splitting any text takes out every separator from the left and nothing else: the parts hold none, and joined they are the text |
| StyledText.PartIsPair | ui/renderers/html.go:309-315 | a part of a style string that holds the inner separator once sets its name to its value |
| StyledText.PartWithoutPair | ui/renderers/html.go:309-315 | a part without the inner separator sets nothing |
| StyledText.PartWithMore | ui/renderers/html.go:312-314 | nor does a part that holds it more than once |
| StyledText.LaterPartsWin | ui/renderers/html.go:308-316 | parts are taken in order, the later of two with one name winning |
| StyledText.MarkerReads | ui/renderers/html.go:304-321 | the map parsed from a printed marker is the one its entries denote, for separator-free names and values |
| StyledRender.HtmlProvider.AddStyleGroup | ui/renderers/html.go:304-321 | pushes the parsed style map unless it is empty |
| StyledRender.HtmlProvider.RemoveLastStyleGroup | ui/renderers/html.go:298-302 | pops one style map if there is one |
| StyledRender.HtmlProvider.Render | ui/renderers/html.go:216-275 | the labels and the style stack are those of the character machine run over the collected content behind the list prefix; where its labels end is stated in `StyledLabels` |
| StyledMarkers.OpenRun | ui/renderers/html.go:233-274 | reading an opening marker flushes the text and pushes its styles, wherever it stands |
| StyledMarkers.CloseRun | ui/renderers/html.go:243-263 | reading a closing marker flushes the text and pops once |
| StyledMarkers.RunMeans | ui/renderers/html.go:230-275 | from any resting state, printed tokens show what they mean and move the stack as they say |
| StyledMarkers.RenderMeans | ui/renderers/html.go:216-275 | one call of the renderer inverts printing for every safe token sequence |
| StyledMarkers.Spelling | ui/renderers/html.go:506-513 | how markers and style strings are spelled, character by character |
| StyledTree.EntriesDenote | ui/renderers/html.go:506-513 | the printed entries denote the style map in whatever order it was enumerated |
| StyledTree.OpenAndClose | ui/renderers/html.go:532-546 | an element's markers restore the stack exactly although empty maps are never pushed and every close pops |
| StyledTree.TreeMeans | ui/renderers/html.go:515-549 | the markers of any tree show every character with its nearest definitions and leave the stack balanced |
| StyledTree.CleanIsSafe | ui/renderers/html.go:540-546 | marker-free text with separator-free styles prints to tokens that cannot be misread |
| StyledTree.InheritancePreserved | ui/renderers/html.go:216-549 | rendering a printed tree shows the original text, each character with the value of its nearest self-or-ancestor definition of every style name, and ends with an empty stack |
| StyledTree.PrefixShownFirst | ui/renderers/html.go:220-222 | a list prefix that cannot be read as a marker is shown in front in the current style, and changes nothing behind it |
| StyledTree.BlockEndsLine | ui/renderers/html.go:541-546 | a block element ends its line with a blank, a line break and a blank outside its own style; other elements add no text |
| StyledTree.CutsDoNotMatter | ui/renderers/html.go:257-274 | content cut in two between tokens shows the same and ends with the same stack |
| StyledTree.TextMayBeCut | ui/renderers/html.go:247-255 | a text in front may be cut in two without changing what is printed |
| StyledTree.UnstyledBalanced | ui/renderers/html.go:298-320 | an element without styles gives the stack back exactly if the stack is empty |
| StyledPieces.AnyTextMayBeCut | ui/renderers/html.go:247-255 | a text may be cut wherever it stands, and what is printed stays the same and safe |
| StyledPieces.SplitAt | ui/renderers/html.go:230-275 | every position outside markers splits printed content into two contents that print safely on their own |
| StyledPieces.PiecesMean | ui/renderers/html.go:216-275 | safe content in any number of pieces that end outside markers, rendered in order from any stack, shows what it means and leaves the stack it should |
| StyledPieces.CutAnywhere | ui/renderers/html.go:216-275 | for any document and any cutting of its printed content outside markers, rendering the pieces in order shows the same as rendering it whole, every character in its nearest styles, with an empty stack at the end |
| StyledLabels.WordIsOneLabel | ui/renderers/html.go:247-255 | a marker-free text without blanks is one label, in the style on top of the stack |
| StyledLabels.BlankEndsLabel | ui/renderers/html.go:247-255 | a blank ends a label and belongs to it, and what follows is labelled on its own |
| StyledLabels.MarkerEndsLabel | ui/renderers/html.go:233-274 | a marker makes one label of exactly the text collected so far, empty or not, in the style before it; what follows is labelled on its own from the stack the marker leaves |
| StyledLabels.RunBehind | ui/renderers/html.go:230-275 | labels made earlier change nothing about later ones |
| MarkdownTags.FieldsKeepText | ui/renderers/markdown.go:297 | the words are non-empty, free of white space, and together all the rest of the text |
| MarkdownTags.OneWord | ui/renderers/markdown.go:297 | a text without white space is one word |
| MarkdownTags.SpaceEndsWord | ui/renderers/markdown.go:297 | white space, by its character codes, ends a word wherever it stands |
| MarkdownTags.AppendLaysOut | ui/renderers/markdown.go:297-329 | the words are added at the end of the last row, each with a trailing blank and exactly the tags in force, and all else stays |
| MarkdownTags.MarkdownProvider.OpenTag | ui/renderers/markdown.go:420-423 | appends one opening tag to the collected text |
| MarkdownTags.MarkdownProvider.CloseTag | ui/renderers/markdown.go:425-427 | appends one closing tag |
| MarkdownTags.MarkdownProvider.WriteDoc | ui/renderers/markdown.go:412-427 | walking a flat document, opening a tag on entry and closing it on exit, collects exactly the printed document |
| MarkdownTags.MarkdownProvider.WriteBlock | ui/renderers/markdown.go:219-427 | a document written and rendered adds each segment's words under its own tag, in order, and leaves tags and collected text as before |
| MarkdownTags.MarkdownProvider.Render | ui/renderers/markdown.go:295-329 | a text's words, each with a trailing blank and exactly the current tags, are added to the last row, which is created if there is none; all else stays |
| MarkdownTags.MarkdownProvider.RenderBlock | ui/renderers/markdown.go:219-273 | rows and tag stack are those of the character machine run over the collected text |
| MarkdownTags.TagNameReads | ui/renderers/markdown.go:246-251 | the tag name read back is the one printed |
| MarkdownTags.RoundTrip | ui/renderers/markdown.go:219-273 | from any resting state, a printed flat document emits each segment's words under its own tag and restores the tags |
| MarkdownTags.RenderRoundTrip | ui/renderers/markdown.go:219-427 | the same for one call of the renderer on any tag stack |
| MarkdownTags.BracketEndsText | ui/renderers/markdown.go:237-243 | outside tags a bracket that opens no tag is text and ends its word |
| MarkdownTags.NestedTagStays | ui/renderers/markdown.go:231-270 | a tag inside a tag: its end closes the block, the outer end is read as text, and the outer tag stays in force |
| RefreshMonitor.StepKeepsLock | libwallet/ext/rate_source.go:346-359 | in every step of every caller, the mutex is held by exactly the caller that is in a critical section |
| RefreshMonitor.StepKeepsExclusive | libwallet/ext/rate_source.go:346-359 | at most one caller is between setting and clearing the flag, and the flag is set exactly while one is |
| RefreshMonitor.StepKeepsWakeup | libwallet/ext/rate_source.go:348-358 | with the flag clear and callers parked, a signal is under way or a signalled caller has not re-tested |
| RefreshMonitor.RunIsSafe | libwallet/ext/rate_source.go:341-389 | all three hold in every interleaving of any number of callers |
| RefreshMonitor.CanStep | libwallet/ext/rate_source.go:346-359 | no deadlock: some caller inside can always step once the mutex's other users let go |
| RefreshMonitor.StepLowersRank | libwallet/ext/rate_source.go:346-359 | every step of a caller uses up rank, so wake-ups cannot go round in circles |
| RefreshMonitor.RunsAreFinite | libwallet/ext/rate_source.go:341-389 | in any run without newcomers the callers take a bounded number of steps, whatever other users of the mutex do |
| RefreshMonitor.EveryoneReturns | libwallet/ext/rate_source.go:341-389 | a run that cannot be extended has brought every caller back |
| RefreshMonitor.NewcomerOvertakes | libwallet/ext/rate_source.go:346-359 | a caller that is idle, wants the mutex or was signalled too can claim the flag before a signalled waiter, which parks again |
| RefreshMonitor.OvertakenIff | libwallet/ext/rate_source.go:346-359 | with the mutex free and the flag clear, some run makes a signalled waiter park again exactly if another caller is idle, wants the mutex or was signalled; if all others are parked, the waiter's next two steps claim the flag |
| RefreshMonitor.OnlyWaiterIsServed | libwallet/ext/rate_source.go:346-353 | with all others parked no run at all makes the signalled waiter park again before it claims the flag |
| RefreshMonitor.OvertakingIsReachable | libwallet/ext/rate_source.go:341-389 | two callers reach such a state from the start, and the first then overtakes the second |
| PageStacks.PageStack.PushAndNavigate | app/pagestack.go:40-69 | stack, callbacks, entries and removals change as one push; false exactly for the page already on top |
| PageStacks.PageStack.PopTop | app/pagestack.go:76-96 | the same for a pop; false exactly on the empty stack |
| PageStacks.PageStack.PopAfterMatch | app/pagestack.go:106-132 | pops all pages above the top-most match, or nothing without a match |
| PageStacks.PageStack.ResetTo | app/pagestack.go:140-156 | every old page is told that it leaves, and the new top that it is shown |
| PageLifecycle.PushKeepsLifecycle | app/pagestack.go:40-69 | a push keeps IDs distinct, the top shown and every covered page hidden |
| PageLifecycle.PushConserves | app/pagestack.go:54-66 | a push adds one entry, and one removal with its closing for the duplicate it replaces |
| PageLifecycle.PopAfterKeeps | app/pagestack.go:106-132 | popping after a match keeps lifecycle and conservation |
| PageLifecycle.PopKeeps | app/pagestack.go:76-96 | popping keeps lifecycle and conservation |
| PageLifecycle.ResetKeepsLifecycleIff | app/pagestack.go:140-156 | a reset keeps the lifecycle exactly if its IDs are distinct and every covered new page was in the stack or hidden already |
| PageLifecycle.RunKeepsLifecycle | app/pagestack.go:40-156 | the lifecycle invariant holds over every run whose resets bring at most one page |
| PageLifecycle.RunConserves | app/pagestack.go:54-155 | over every run, entries minus removals are the stack's occurrences, and each removal of a closable page closed it once |
| PageLifecycle.OrderKept | app/pagestack.go:60-129 | no operation but a reset changes the order of the pages it keeps |
| PageCallbacks.FarewellTells | app/pagestack.go:121-127 | a page that leaves is told that it is not shown and then, if it can be, that it is closed |
| PageCallbacks.FarewellsInOrder | app/pagestack.go:121-127 | pages that leave together are told in the order of the stack |
| PageCallbacks.PushEvents | app/pagestack.go:44-67 | a push tells the covered page, then a replaced one, then attaches and shows the new page, which is on top |
| PageCallbacks.PopAfterTells | app/pagestack.go:110-131 | going back keeps everything up to the top-most match and shows it, even if nothing was above it |
| PageCallbacks.WindowTellsInOrder | app/window.go:48-93 | over every run of the window no page is closed before it was told that it is hidden, none shown before it was attached, and there are as many attachments as entries |
| Windows.WindowNavigator.Display | app/window.go:48-53 | one push, and one reload unless the page was on top already |
| Windows.WindowNavigator.CloseCurrentPage | app/window.go:58-63 | one pop, and one reload unless the stack was empty |
| Windows.WindowNavigator.ClosePagesAfter | app/window.go:70-77 | pops down to the top-most page with the ID, and reloads exactly if the stack has one |
| Windows.WindowNavigator.ClearStackAndDisplay | app/window.go:82-86 | the new page is attached, the old ones are told that they leave, the new one is shown and alone in the stack, and the window reloads |
| Windows.WindowNavigator.CloseAllPages | app/window.go:90-93 | a reset to nothing and one reload |
| Windows.WindowNavigator.ShowModal | app/window.go:99-107 | the modal goes on top, is attached and resumed, and the window reloads |
| Windows.WindowNavigator.DismissModal | app/window.go:113-131 | removes the top-most modal with the ID and tells it once, or does nothing |
| Windows.WindowNavigator.DismissAll | app/window.go:113-143 | dismissing the top modal's ID until none is left ends, with the dismissals in stack order |
| Windows.DismissTop | app/window.go:117-128 | dismissing by the top modal's ID removes that very instance |
| Windows.LastInFirstOut | app/window.go:113-143 | the drain dismisses the modals in reverse order of showing |
| Windows.DismissFrame | app/window.go:117-124 | every other modal stays, in order |
| Windows.DismissOne | app/window.go:117-129 | one instance is removed for one OnDismiss |
| Windows.WindowInvariants | app/window.go:48-93 | lifecycle and conservation hold over every run of window calls from the empty window |
| GridWraps.PlaceAll | ui/cryptomaterial/grid.go:99-135 | a row is drawn at the running sums of its widths, and the offset ends where the next row starts |
| GridWraps.Layout | ui/cryptomaterial/grid.go:37-97 | what is drawn and the size returned are those of the greedy fill |
| GridWrapProperties.RowLaid | ui/cryptomaterial/grid.go:99-135 | one row's rectangles are disjoint and stay in the row's band |
| GridWrapProperties.RowsLaid | ui/cryptomaterial/grid.go:65-78 | the bands of the rows lie one below the other |
| GridWrapProperties.RowsMove | ui/cryptomaterial/grid.go:118-133 | drawing at another offset moves everything drawn by that offset |
| GridWrapProperties.FillKeeps | ui/cryptomaterial/grid.go:45-79 | the loop keeps rows sound, ordered and greedy, and stops only at the end or at an element that fits neither way |
| GridWrapProperties.DrawnDisjointInside | ui/cryptomaterial/grid.go:37-135 | whatever the offset drawing starts at, everything drawn is pairwise disjoint in area and inside the returned size |
| GridWrapProperties.WrapsGreedily | ui/cryptomaterial/grid.go:45-97 | a prefix of the elements is placed, each once and in order; a row starts with an element that did not fit before, and a row over the limit has one element |
| GridWrapProperties.DrawnInOrder | ui/cryptomaterial/grid.go:99-135 | each placed element is drawn once, in order |
| GridWrapProperties.PlacedAt | ui/cryptomaterial/grid.go:103-133 | each element is drawn right behind the ones before it, in its own size, at the near edge, the far edge or the middle of its row, or baseline on baseline |
| GridWrapProperties.WidthsAddUp | ui/cryptomaterial/grid.go:126-132 | lengths along the axis add up without gaps |
| GridWrapProperties.SizeIsExact | ui/cryptomaterial/grid.go:66-80 | the returned size is exact: as long as the longest row and, across, the sum of the largest elements of the rows |
| GridWrapProperties.FillTight | ui/cryptomaterial/grid.go:54-74 | so it is throughout the loop, which also offers each element exactly what is left of the limits |
| GridWrapProperties.MeasuredUnbounded | ui/cryptomaterial/grid.go:84-90 | an element is measured with its limit along the axis lifted to a million |
| OrderSync.InstantSwap.GetOrdersRaw | libwallet/instantswap/instantswap.go:131-173 | a page is the slice at the offset, cut at the limit, with a non-positive offset or limit meaning none |
| OrderSync.InstantSwap.NextPage | libwallet/instantswap/sync.go:129-138 | a page holds the next twenty orders, or all that are left |
| OrderSync.InstantSwap.GetOrderInfo | libwallet/instantswap/instantswap.go:249-275 | on success the one stored order carries the exchange's answer; a failure stores nothing |
| OrderSync.InstantSwap.CheckOrder | libwallet/instantswap/sync.go:140-167 | the exchange is asked exactly if the order's server is this one, or, for an order without a server, if its old name with the key configured for it is; such an order is completed with that server |
| OrderSync.InstantSwap.CheckPage | libwallet/instantswap/sync.go:140-167 | the page continues the queries in storage order although its records are rewritten under way |
| OrderSync.InstantSwap.CheckForUpdates | libwallet/instantswap/sync.go:120-172 | terminates; after a clean pass each order of the server, by the stored fields, was looked up once and carries the answer, and no other order was looked up or changed its details; an unclean pass looked up a prefix, and without faults the pass is clean and every legacy order completed with its old name and configured key |
| OrderSync.InstantSwap.SyncServer | libwallet/instantswap/sync.go:71-101 | at most three passes, only the last of them clean; fails exactly if none was, and unless cancelled only after exactly three |
| OrderSync.InstantSwap.Sync | libwallet/instantswap/sync.go:24-69 | a second synchronisation has no effect; timestamp and event come only with a clean visit to every server that could be instantiated, and unless cancelled a synchronisation is given up only after three failed passes at one server |
| OrderSync.KeptQueries | libwallet/instantswap/sync.go:145-165 | completing legacy orders and storing answers never changes which orders belong to which server |
| OrderSync.QueriedExactlyOnce | libwallet/instantswap/sync.go:120-172 | with distinct identifiers a clean pass looks up each order of the server once and no other order |
| OrderSync.CheckedByFields | libwallet/instantswap/sync.go:140-167 | the same order by order, from the stored fields alone |
| OrderSync.QueriesInOrder | libwallet/instantswap/sync.go:123-169 | lookups follow the order of storage across pages |
| OrderSync.QueriedAtMostOnce | libwallet/instantswap/sync.go:120-172 | any pass asks about an order at most once, and only at the order's own server |
| OrderSync.SyncedExactlyOnce | libwallet/instantswap/sync.go:44-69 | after a finished synchronisation the last pass at an order's server asked about it exactly once, and no other server ever was |
| OrderSync.ReadyExactly | libwallet/instantswap/sync.go:45-57 | the servers visited are those that can be instantiated |
| OrderSync.ReadyDistinct | libwallet/instantswap/sync.go:45-57 | no server is visited twice if none is configured twice |
| OrderScheduler.Scheduler.Start | libwallet/instantswap.go:60-102 | a second scheduler is refused without effect; start and end events pair up, and the scheduler is free again at the end |
| OrderScheduler.Scheduler.Loop | libwallet/instantswap.go:96-207 | one order per round in sequence while the rounds settle, each passing the round's guards, and the run ends for the first guard that refuses |
| OrderScheduler.CreatedIff | libwallet/instantswap.go:107-207 | an order is created exactly for the largest amount that leaves the balance to maintain and respects a non-zero limit, when it is positive, not the whole balance, and the rates agree |
| OrderScheduler.OverspendsIff | libwallet/instantswap.go:183-202 | an order exceeds the wallet's balance exactly if a negative balance to maintain was asked for and no limit stops it |
| OrderScheduler.LowBalanceEnds | libwallet/instantswap.go:109-116 | a balance not above the one to maintain is an error before the first order and a normal end after it |
| OrderScheduler.StopsFor | libwallet/instantswap.go:98-181 | exactly when a run is shut down, lacks a balance or a rate, or finds the balance too low or the rates too far apart, the first of these counting |
| OrderScheduler.StopsAfterRates | libwallet/instantswap.go:184-203 | after that a negative limit means nothing to send, and exactly when the amount would be the whole balance |
| OrderScheduler.UnsetToleranceIsFive | libwallet/instantswap.go:147-149 | a tolerance that is not positive means five percent |
| OrderScheduler.WithinToleranceIff | libwallet/instantswap.go:174-181 | for positive rates and a tolerance M below 200 the guard is silent exactly if their ratio is between (200-M)/(200+M) and (200+M)/(200-M) |
| OrderScheduler.DeviationOf | libwallet/instantswap.go:176-177 | for any two rates the guard compares their distance with the tolerance of their sum; a zero sum objects to any difference |
| OrderScheduler.TooFarIff | libwallet/instantswap.go:151-181 | the rates stop a round exactly if there is a ticker, its price can be inverted where bitcoin is sold, and the rates are further apart than the tolerance of their sum |
| OrderScheduler.WideToleranceNeverObjects | libwallet/instantswap.go:176-181 | a tolerance of 200 percent or more switches the guard off for positive rates |
| OrderScheduler.ZeroPriceNeverObjects | libwallet/instantswap.go:165-181 | so does a bitcoin price of zero, whose inverse is no finite rate |
| NotificationGuard.StepKeepsGuard | libwallet/assets/btc/sync.go:452-454 | every step keeps the flag equal to the number of live handlers |
| NotificationGuard.RunKeepsGuard | libwallet/assets/btc/sync.go:205-255 | so does every run |
| NotificationGuard.AtMostOneHandler | libwallet/assets/btc/rescan.go:89-91 | in every interleaving of sync starts, rescans and exits at most one handler is live, and the flag is set exactly while one is |
| NotificationGuard.OverlapIff | libwallet/assets/btc/sync.go:206-255 | in any reachable state with a clear flag and at most one subscription, starting a handler leads to two subscriptions exactly if an earlier handler has cleared the flag but not released its own |
| NotificationGuard.StepAloneIff | libwallet/assets/btc/sync.go:205-255 | a step keeps handlers from coexisting exactly if it is no successful start beside such a handler |
| NotificationGuard.AlwaysAloneIff | libwallet/assets/btc/sync.go:205-255 | over any run, no two handlers ever coexist exactly if every successful start finds no such handler |
| NotificationGuard.CleanStartsNeverOverlap | libwallet/assets/btc/rescan.go:89-91 | in a run of such starts no state has two subscriptions |
| NotificationGuard.SubscriptionsCanOverlap | libwallet/assets/btc/sync.go:206-255 | the condition can fail: a run from the start in which an old subscription is not released yet while a new handler listens |
| SyncProgress.SyncData.BestServerPeerBlockHeight | libwallet/assets/btc/sync.go:112-122 | the first peer that is ahead gives the target |
| SyncProgress.SyncData.UpdateSyncProgress | libwallet/assets/btc/sync.go:124-184 | the start height is set once; nothing is reported for the first block unless it is the target |
| SyncProgress.SyncData.UpdateRescanProgress | libwallet/assets/btc/rescan.go:285-323 | the rescan reports the same percentage, from its own start and the wallet's best block |
| SyncProgress.PercentageBounded | libwallet/assets/btc/sync.go:155-167 | every percentage is between 0 and 99, even where the difference of two heights overflows |
| SyncProgress.PercentageIs | libwallet/assets/btc/sync.go:155-167 | the report is the whole percentage reached of the blocks fetched and remaining, none of either counting as one |
| SyncProgress.PercentageMonotone | libwallet/assets/btc/rescan.go:290-311 | for a fixed start and target the percentage never goes back with the height |
| SyncProgress.BestNeverFalls | libwallet/assets/btc/sync.go:112-122 | the target never falls, is a peer's height or the old one, and stays exactly if no peer is ahead |
| SyncProgress.BestIsFirstAhead | libwallet/assets/btc/sync.go:114-121 | of the peers that are ahead the first one counts, however far the others are |
| SyncProgress.TargetIsReached | libwallet/assets/btc/sync.go:112-122 | as many updates as there are peers ahead reach a target that no peer exceeds |

## Left out

- Buckets.Bucket.DropBucket: the equality with the flat drop is stated for a transaction whose snapshot is the durable store; with other committed transactions in between, the exact outcome is stated through the durable store instead.
- BadgerStore.Txn.Commit: a conflict may come whenever another transaction has committed since; which reads cause one is not modelled.
- Buckets.Bucket.ForEach: needs a transaction that is not discarded, because badger's iterator panics on one.
- Cursors.Cursor.First: needs some key at or after the bucket's prefix, because badger's iterator has no item past the end; opening a bucket guarantees its own marker.
- StyledTree.InheritancePreserved: elements carry their already parsed style map, as `getStyleMap` returns it; the in-place edits of the HTML tree by `setNodeStyle` are modelled as the token sequence they produce.
- GridWrapProperties.DrawnDisjointInside: baseline alignment is excluded, as elements hanging below the baseline leave their row; no alignment keeps within the cross-axis limit.
- MarkdownTags.RenderRoundTrip: nested tags are excluded, as the first closing tag ends the block (`MarkdownTags.NestedTagStays`).
- OrderSync.InstantSwap.CheckForUpdates: needs fewer than 2^31 orders, because the page offset is truncated to 32 bits; an order's identifier stands for its database key, and of its details only one value is kept.
- OrderSync.InstantSwap.Sync: stopping a synchronisation while it runs races with its end and is not modelled; cancellation is one of the faults that can come at any check.
- OrderScheduler.Scheduler.Loop: runs are finite prefixes given round by round; the swapped currencies after a refund appear only as the round's direction flag.
- OrderScheduler.Scheduler.Start: mutual exclusion of two concurrent starts does not hold in the code and is not claimed.
- SyncProgress.SyncData.UpdateSyncProgress: floating-point division of 32-bit numbers is modelled as exact; the time estimates are not part of this model.
- RefreshMonitor.RunIsSafe: fetching tickers, the disabled source and changes of source are not part of this model.
- Badger itself: how it detects conflicts, size limits other than a number of writes, reserved keys, and its panics; that a conflict met between two batches of a drop is returned unwrapped.
- `Cursor.Last` and `Cursor.Prev` (db.go:398-520), which do not mirror First and Next; `keyCount`, which counts descendants; `setTx`, which nothing calls; read cursors on their own transaction.
- Sharing of byte slices between buckets and callers: keys and values are values.
- Non-ASCII text: the loops step over runes but read bytes.
- How the list prefix grows (html.go:80-105; nothing resets it), colours and fonts of labels, and the HTML and markdown parsers.
- The plain `Grid`, tables, links and all drawing.
- Order creation details, broadcasting and confirmation of swap transactions; networking, logging, persistence formats and wallets other than bitcoin.
