# Verified model of newgit's core

newgit keeps one Git history per tracker: root pins the commits of the trackers
mounted in it, those pin theirs, and every reader gets a view composed of what
they may read. This project models the parts of that on which everything else
rests, and proves what they promise.

* **Trees and messages** (`Objects`, `TreeEdits`, `TreeBytes`, `Text`,
  `Messages`): editing trees by path, laying one over another, listing files and
  changes; commits and trees as bytes; the trailers a split commit carries.
* **Compose and split** (`Order`, `Compose`, `Split`, `Partition`,
  `PinnedTrees`, `RoundTrip`, `Readers`, `Stores`, `Snapshots`, `Composer`,
  `Splitter`, `Carried`, `Kept`, `Children`, `LostFiles`, `Seen`, `Views`,
  `StaleViews`): a root history composed into views, view commits split back into
  root and child commits, the round trip over whole histories in any store, what
  is lost with children that are not here, what any one reader sees and by whom,
  and the shallow store that is enough to compose.
* **Render and its inverse** (`Render`, `RenderInverse`, `RenderLines`,
  `RenderLimits`, `Occurrences`, `Renderer`, `Reverser`): replacements applied as
  one batch and taken back, all of them, one resource's, or on a file someone has
  edited since, and the renders that cannot be.
* **Landing and following** (`Landing`, `Follow`): branch lists moved by
  compare-and-swap with a log, and root's branch catching up by single
  compare-and-swaps interleaved with everything else.
* **The instance lock** (`Locks`), **governance** (`Governance`, `Claims`), **the
  native walks** (`Walk`, `Index`), **the chunked scan** (`Scan`) and **background
  checks** (`Checks`).

`Compose`, `Split` and `Render` hold pure functions that say what is meant; the
classes and loops of `Composer`, `Splitter`, `Renderer`, `Reverser`, `TreeEdits`
and the rest are proved to compute them, and the theorems are about the
functions. `Follow`, `Locks` and `Checks` are state machines whose steps are the
single atomic actions of the code; their theorems hold over every run.

An object's id stands for its content, so ids are modelled by content: a commit
value covers its tree, its parents and every commit it pins, and that is also
why every recursion over pins and parents ends. Where code compares a commit's
id as text (the trailers' source), the id is a parameter of which nothing but
its form is assumed (`RoundTrip.Ids`). How definition files parse, and which
commits a store holds, are parameters too.

## Premises

The code does not enforce these, and the theorems that need them say so.

* Round trip (`RoundTrip.Splittable`, `RoundTrip.GoodHistory`): at every level
  no empty subtree, nothing under a tracker's own `.newgit/pins` (only the top
  level is refused), no plain file exactly at a mount; definitions in the
  parent's own files, or in an `access` mounted exactly there that mounts nothing
  and has no rival; view parents distinct; commits the split made in the store it
  is composed from (`RoundTrip.MadeHeld`). What is then still asked of a commit,
  `RoundTrip.ViewComesBack` shows to be exactly what is needed: headers well
  formed, a message kept on a child not itself a split message, no file of a child
  that is not here, and no passing over by compose.
* Per-reader trees (`Readers.DropsKeepMounts`): the commits a view was dropped
  through left the readable children's mounts as they were. Without it the tree is
  that of the nearest undropped commit (`Readers.ViewTreeIs`), and
  `StaleViews.StaleAfterDrop` shows a history where the two differ.
* Memo tables (`Composer.OneName`): a commit is pinned under one tracker name.
* Render inversion (`RenderInverse.Invertible`): values are non-empty and cannot
  overlap themselves. `RenderLimits.ComesBackExactlyWhen` shows that a value's
  renders come back only then; the check the code makes is a weaker one.
* Following: nobody but a follower touches stray refs, and a request is refused
  whole or answered ref by ref. A follower that read an older head can move the
  branch back (`Follow.OlderHeadMovesBack`), so an answer that it is not behind
  speaks of the moment of its last swap.
* The lock: nobody holds it when a file is removed, as where each pruner removes
  only the file it locked (`Locks.OwnRemovalsHarmless`), or prunes do not overlap.
  Overlapping prunes break it (`Locks.TwoPrunersBreakIt`).
* The log of heads: the project is not destroyed in between.

## Model

| member | source | states |
|---|---|---|
| Messages.WriteTrailers | crates/newgit-core/src/compose.rs:66-94 | writing the trailers into a byte buffer gives the message, its own run of final newlines last, with the view commit's headers and id before it |
| Messages.ParseSplitUndoes | crates/newgit-core/src/compose.rs:66-139 | parsing gives back any message and any 40-digit source exactly, and the non-empty header lines, whatever bytes the message holds |
| Messages.SplitRoundTrip | crates/newgit-core/src/compose.rs:66-139 | message, source and headers all come back if and only if the headers are well formed |
| Messages.WellFormedHeaders | crates/newgit-core/src/compose.rs:77-84 | headers are well formed exactly when they are non-empty lines, each ended by a newline |
| Messages.ParsedIsShorter | crates/newgit-core/src/compose.rs:102-139 | a message read out of trailers is shorter than the one it was read from, so it is never that message |
| Messages.ParagraphDecides | crates/newgit-core/src/compose.rs:102-139 | the last paragraph decides what a message tells: one that ends in the trailer with an id does, whoever wrote it, and lines beside it that are no trailers stay in the message |
| Messages.IdIs | crates/newgit-core/src/compose.rs:102-139 | an id is forty digits to the base of sixteen, in either case |
| Messages.ReadCommit | crates/newgit-core/src/objects.rs:69-103 | the line-by-line reader returns what the specification of parsing says |
| Messages.ParseCommitUndoes | crates/newgit-core/src/objects.rs:45-103 | parsing a commit's body gives back tree, parents, author, committer, headers and message, byte for byte |
| Messages.BodyLaidOut | crates/newgit-core/src/objects.rs:45-67 | a commit's body is laid out as Git stores it, each field behind its own label |
| Messages.UnsignedNext | crates/newgit-core/src/objects.rs:107-121 | of the headers, in order, exactly those lines remain that neither start a signature nor continue one |
| Messages.EncodingIs | crates/newgit-core/src/objects.rs:124-130 | the encoding kept is the first line that names one |
| TreeBytes.MakeTree | crates/newgit-core/src/objects.rs:337-355 | the bytes of a made tree are its entries in Git's order, whatever order they came in |
| TreeBytes.ReadTree | crates/newgit-core/src/objects.rs:296-335 | the reading loop returns the entries the bytes hold up to where they are cut short, or an error where its slice panics |
| TreeBytes.ReadsExactly | crates/newgit-core/src/objects.rs:310-330 | reading returns a list of entries if and only if the bytes are those entries followed by bytes with no whole entry at their head |
| TreeBytes.PanicsExactlyWhen | crates/newgit-core/src/objects.rs:313-326 | it panics if and only if, after whole entries, a NUL comes before the first space with room for an id after it |
| TreeBytes.ParsedUndoes | crates/newgit-core/src/objects.rs:296-355 | reading a tree's bytes gives back each entry's mode, name and id, in the order written |
| TreeBytes.MadeTreeReads | crates/newgit-core/src/objects.rs:296-355 | reading a made tree gives the entries it was made of, each as often, in Git's order |
| TreeBytes.OrderDoesNotMatter | crates/newgit-core/src/objects.rs:157-168 | the same entries in any order make the same tree, byte for byte: a name decides its place |
| TreeBytes.FirstByteDecides | crates/newgit-core/src/objects.rs:157-168 | entries compare by the first byte at which their names differ, a subtree's name having a slash where it ends |
| TreeBytes.SubtreeAfterDot | crates/newgit-core/src/objects.rs:157-168 | so a subtree comes after a file of its name with a dot and more behind it |
| TreeEdits.SetIn | crates/newgit-core/src/objects.rs:457-502 | editing the entry vector in place comes to the path set, or nothing when nothing is left |
| TreeEdits.OverlayTrees | crates/newgit-core/src/objects.rs:506-522 | editing the base's entries one by one comes to the overlay, subtrees on both sides merged |
| TreeEdits.Files | crates/newgit-core/src/objects.rs:525-544 | the stack of subtrees yields every file by its path, and no other |
| TreeEdits.DiffInto | crates/newgit-core/src/objects.rs:548-611 | the paths whose files differ are listed once each and no others are, though equal subtrees are not entered |
| Objects.SetPathFiles | crates/newgit-core/src/objects.rs:435-502 | setting a path changes files exactly at it, under it, and, when something is put there, on the way to it |
| Objects.SetPathClean | crates/newgit-core/src/objects.rs:435-502 | setting or removing a path leaves no empty subtree |
| Objects.OverlayFiles | crates/newgit-core/src/objects.rs:504-522 | an overlay holds the top's files wherever the top decides, and the base's elsewhere |
| Objects.CoversMeansFile | crates/newgit-core/src/objects.rs:504-522 | the top decides a path exactly when it has a file at it, above it or below it |
| Objects.OverlayClean | crates/newgit-core/src/objects.rs:504-522 | an overlay of trees without empty subtrees has none |
| Objects.FilesDecide | crates/newgit-core/src/objects.rs:525-544 | trees without empty subtrees that hold the same files are the same tree |
| Composer.Composer.ExpandChild | crates/newgit-core/src/compose.rs:454-469 | the memo table holds every pinned commit's composed tree, where each commit is pinned under one tracker name |
| Composer.Composer.ExpandChildren | crates/newgit-core/src/compose.rs:418-450 | every pin the reader gets is expanded, and the mounts returned are the specified ones |
| Readers.MountedAreGot | crates/newgit-core/src/compose.rs:425-437 | mounted, and composed, are exactly the children that are pinned, readable by their id, admitted at that commit, and held |
| Seen.MountsAreSaid | crates/newgit-core/src/compose.rs:181-254 | each is mounted where its definition file says, in the commit's own files or else in the first pinned child, by name, that says it is mounted there |
| Composer.Composer.GraftChildren | crates/newgit-core/src/compose.rs:480-497 | the loop over mounts, shallowest first, builds the tree with every child grafted |
| Composer.Composer.MakeView | crates/newgit-core/src/compose.rs:508-646 | the view commit of a root commit, its parents taken from the tables, is the one specified |
| Views.PassedOverExactlyWhen | crates/newgit-core/src/compose.rs:518-571 | a commit's view is a parent's view if and only if all it did was move pins its reader neither gets nor had there, or it merges such pins and leaves what one parent's view had, ahead of all the others |
| Views.OwnMetadata | crates/newgit-core/src/compose.rs:612-646 | any other commit that no split made has its own author, committer and message in the view, the parents' views for parents, and its headers whole exactly where that gives the id it had |
| Views.SplitMetadata | crates/newgit-core/src/compose.rs:573-611 | one that a split made gives the view the headers and message its trailers tell of; author and message are those of the first newly pinned child, by mount, where it changed no files of its own |
| Views.FirstByMount | crates/newgit-core/src/compose.rs:289-299 | first is the least deep mount, of those as deep the first as written, and then the lesser name |
| Views.UnpinnedIsItself | crates/newgit-core/src/compose.rs:508-646 | a history that pins nothing composes to itself for any reader, commit for commit |
| Composer.Composer.ComposeRoot | crates/newgit-core/src/compose.rs:386-416 | walking parents first, every root commit gets its specified view; it fails only where some commit's view cannot be composed |
| Composer.FindHolder | crates/newgit-core/src/compose.rs:650-675 | the loops find whose message to take: the first name, shallow mounts before deep ones, pinned to something new in every parent's view |
| Composer.FindEmptyMerge | crates/newgit-core/src/compose.rs:701-718 | the loops find the first parent whose view has this tree and is ahead of all the others |
| Composer.DistinctViews | crates/newgit-core/src/compose.rs:543-549 | the parents' views, each once, in order |
| Splitter.PutInOrder | crates/newgit-core/src/compose.rs:1160-1178 | the stack puts each view commit not yet split in order once, after all its parents, and includes the tip |
| Splitter.Splitter.SplitAll | crates/newgit-core/src/compose.rs:1155-1196 | the tip's root commit is the specified one, or an error exactly when some commit behind it cannot be split |
| Splitter.Splitter.SplitOne | crates/newgit-core/src/compose.rs:1349-1431 | one view commit's root commit, its parents' taken from the table |
| Splitter.SplitPartOf | crates/newgit-core/src/compose.rs:1606-1793 | the loop over children, deepest mount first, yields the specified part: own tree, pins, and commits made, in order |
| Splitter.SplitChildOf | crates/newgit-core/src/compose.rs:1724-1813 | each child becomes nothing, a pin kept, or a commit made, as specified, and an unbound one is refused |
| Kept.KeptExactlyWhen | crates/newgit-core/src/compose.rs:1756-1780 | where a child's pins are all here and compose, one is reused if and only if it composes to the child's part and every other is behind it |
| Kept.NoLineDropped | crates/newgit-core/src/compose.rs:1735-1790 | whatever becomes of a child, the pin it is left at has every pin the parents had behind it or is it; a commit made stands on all of them, by the view commit's author and with its message |
| Kept.AbsentExactlyWhen | crates/newgit-core/src/compose.rs:1732-1734 | a child is pinned nowhere if and only if no parent pinned it and it has no part |
| Kept.AncestorMeans | crates/newgit-core/src/compose.rs:1861-1881 | one commit is behind another exactly when some way back through parents leads to it |
| Kept.MadeAreBound | crates/newgit-core/src/compose.rs:1781-1790 | at every depth commits are made only in the trackers worked on |
| Kept.MadeAfterInside | crates/newgit-core/src/compose.rs:1785-1790 | a commit made for a child is listed right behind those made for what is mounted in it |
| Kept.RootTells | crates/newgit-core/src/compose.rs:1371-1431 | a root commit tells the view commit's id and headers, and has its message if root's own files changed or no other commit was made, and else names the trackers whose commits have it |
| Kept.CommaJoined | crates/newgit-core/src/compose.rs:1415-1424 | those are named with a comma and a space between any two |
| Children.ChildrenAre | crates/newgit-core/src/compose.rs:1561-1601 | a tracker's children are exactly those for which a definition file reads as a valid one, in Git, mounted alone on a directory it claims all of; below root none counts where there is another project |
| Children.DeeperFirst | crates/newgit-core/src/compose.rs:1618-1622 | children are taken out deepest mount first, and of those as deep by name |
| Children.LeafOfChild | crates/newgit-core/src/tracker.rs:80-93 | the last part of a child's id is its name |
| Children.IdsTellApart | crates/newgit-core/src/tracker.rs:80-100 | no two children of any trackers have one id, where names fit |
| RoundTrip.SplitThenCompose | crates/newgit-core/src/compose.rs:1155-1196 | splitting a view history in any store and composing the root commits for a reader of everything gives back the very view commit, and so every commit behind it, where each commit meets the condition `RoundTrip.ViewComesBack` shows to be exact |
| RoundTrip.ViewComesBack | crates/newgit-core/src/compose.rs:1349-1431 | in any store, one root commit composes back to its view commit if and only if its metadata can come back, no file was lost with a child that is not here, and compose does not pass the commit over |
| RoundTrip.PassedOverLosesPins | crates/newgit-core/src/compose.rs:518-541 | a root commit with one parent is passed over only where its pins are some of that parent's, one of a child not here being gone |
| RoundTrip.WholeComesBack | crates/newgit-core/src/compose.rs:1349-1431 | in a store with every commit, headers and a carried message alone decide whether the view commit comes back |
| RoundTrip.PartComposes | crates/newgit-core/src/compose.rs:1606-1793 | at every depth of mounts and in any store, what a part was split into composes to files of that part only, and to all of it if and only if no child that is not here had any |
| Carried.ChoiceWhenNotHere | crates/newgit-core/src/compose.rs:1735-1750 | a child not all here keeps its one pin whatever its part is; pins that differ are refused, Git answering nothing about a commit it does not have |
| Carried.CarriedWhatever | crates/newgit-core/src/compose.rs:1735-1750 | the piece of such a child is its pin, whatever the view holds there and wherever work is allowed |
| LostFiles.FileIsLost | crates/newgit-core/src/compose.rs:1735-1750 | a view with a file at the mount of a child not here: the split succeeds, makes no commit, and the file is in nothing it made |
| RoundTrip.OneRootEach | crates/newgit-core/src/compose.rs:1155-1196 | no two view commits of such a history become one root commit |
| RoundTrip.EverythingExpanded | crates/newgit-core/src/compose.rs:508-646 | a reader of everything expands every pin that is here, behind which no merge joins pins of a child that is not |
| RoundTrip.HolderIs | crates/newgit-core/src/compose.rs:1371-1380 | the child that holds the work is one this split made, exactly when the root commit does not carry the message |
| Partition.PartFiles | crates/newgit-core/src/compose.rs:1640-1657 | a child's part holds exactly the files whose deepest mount above is its own, relative to that mount |
| Partition.OwnPartFiles | crates/newgit-core/src/compose.rs:1633-1657 | what stays with the tracker is exactly the files under no mount |
| Partition.OneOwner | crates/newgit-core/src/compose.rs:1613-1622 | no path is owned by two children |
| Partition.GraftingRestores | crates/newgit-core/src/compose.rs:267-299 | grafting the parts back, shallowest mount first, restores the tree they were taken from |
| Partition.PartsComeBack | crates/newgit-core/src/compose.rs:267-299 | grafting some of the parts makes no file that was not there, and makes the whole tree if and only if no file of any part is missing |
| PinnedTrees.PinsComeBack | crates/newgit-core/src/compose.rs:1815-1828 | the pins written into a tree are the ones read from it, and taking them out gives the tree back |
| Readers.ViewTreeIs | crates/newgit-core/src/compose.rs:508-571 | for any reader and history, with no premise, the view commit's tree is the tree its nearest undropped commit has for that reader |
| Readers.ViewHasTree | crates/newgit-core/src/compose.rs:508-571 | it is that of the root commit itself, each readable child grafted, where the commits dropped on the way left the mounts as they were |
| Readers.PlainViewHasTree | crates/newgit-core/src/compose.rs:508-571 | that premise holds by itself where definitions are the tracker's own files and no merge joins withheld pins |
| StaleViews.StaleAfterDrop | crates/newgit-core/src/compose.rs:518-541 | where a withheld `access` moves a readable child's mount the commit is dropped, and the reader's view keeps the child at its old place |
| Readers.ComposesExactlyWhen | crates/newgit-core/src/compose.rs:386-477 | a root commit has a view exactly when every commit behind it has readable mounts and trees of its own |
| Readers.OnlyWhatMayBeSeen | crates/newgit-core/src/compose.rs:418-450 | every file in a reader's tree is the tracker's own or, all the way down, of a child that is pinned, readable by its id, admitted and held |
| Seen.DeepestDecides | crates/newgit-core/src/compose.rs:267-299 | each path of that tree has what the deepest child the reader gets has there, if any has something there, above or below, and otherwise the tracker's own file |
| Stores.SameViews | crates/newgit-core/src/compose.rs:386-477 | stores that agree on which pinned commits of a history they hold compose the same views |
| Stores.ShallowIsEnough | crates/newgit-core/src/compose.rs:331-334 | a store holding each pinned commit alone, none of its parents, composes the same commits as the full store |
| Snapshots.Store.FetchTracker | crates/newgit-core/src/snapshots.rs:189-211 | afterwards each commit asked for is held or told absent; nothing else is brought in but what others brought |
| Snapshots.FetchPins | crates/newgit-core/src/snapshots.rs:157-230 | level by level, the store ends holding every pinned commit reached, with each lack accounted for |
| Snapshots.EveryPinAccountedFor | crates/newgit-core/src/snapshots.rs:157-230 | every transitively pinned commit ends held, reported absent by a repository without it, of a tracker with none to ask, or below one of those |
| Snapshots.PinnedIsLeast | crates/newgit-core/src/snapshots.rs:166-215 | what counts as pinned is the least that holds what the walked commits pin, what is asked for besides, and what any of that pins, each under its full id |
| Snapshots.FetchedComposesTheSame | crates/newgit-core/src/snapshots.rs:145-170 | a fetch that lacked nothing leaves a store that composes the same views as the full one |
| Renderer.Locate | crates/newgit-core/src/render.rs:88-112 | the search loops find every rule's matches, sorted by position |
| Renderer.SubstituteSpans | crates/newgit-core/src/render.rs:241-305 | the one-pass loop writes the batch and records where each value landed, or refuses on a wrong count or an overlap |
| Renderer.Compose | crates/newgit-core/src/render.rs:163-187 | a render succeeds exactly when the batch does and each value then occurs as often as it was written |
| Renderer.Swap | crates/newgit-core/src/render.rs:355-371 | the cursor loop replaces matches leftmost first and passes over overlapping ones |
| Render.LocatedIs | crates/newgit-core/src/render.rs:88-112 | what is located is every greedy match of every pattern and nothing else, in order |
| Render.LocatedInOrder | crates/newgit-core/src/render.rs:88-112 | matches come by their start, then by their end, and of one span the earlier rule's first |
| Render.UnborderedFindsAll | crates/newgit-core/src/render.rs:88-112 | a pattern that cannot overlap itself is found wherever it occurs |
| Render.SubstituteSucceeds | crates/newgit-core/src/render.rs:241-305 | substitution succeeds if and only if each rule matches as often as declared and no two rules' matches overlap |
| RenderInverse.ReverseAll | crates/newgit-core/src/render.rs:325-335 | reversing a finished render gives the committed content back |
| RenderInverse.ReverseOneClaim | crates/newgit-core/src/render.rs:163-187 | taking one claim back out gives exactly the substitution of the claims that remain; they render to it if and only if each of their values occurs in it as often as declared, and are refused otherwise |
| RenderLimits.RestIsRefused | crates/newgit-core/src/render.rs:163-187 | two claims that render together, the second of which is refused once the first is taken back out |
| RenderInverse.ReverseSome | crates/newgit-core/src/render.rs:163-187 | the same for any set of a render's rules taken out: always the substitution of the others, and their render if and only if the values left are counted right |
| RenderInverse.OrderDoesNotMatter | crates/newgit-core/src/render.rs:150-187 | whether a render succeeds, and its text, do not depend on the order of claims or of the rules in them |
| RenderInverse.WrittenAreLocated | crates/newgit-core/src/render.rs:163-187 | in a finished render each value occurs exactly where it was written |
| Reverser.ReverseRendered | crates/newgit-core/src/render.rs:403-506 | taken back are exactly the occurrences found on the very lines and columns written, as often as written, and those of a value gone astray whose number is right; a rule is unplaced exactly when an occurrence of its value gone astray is left |
| Reverser.TakenAreRendered | crates/newgit-core/src/render.rs:440-475 | the same of the specification the other theorems are about |
| Reverser.EditedStays | crates/newgit-core/src/render.rs:469-492 | a file whose rendered lines were all edited, with no value as often as declared, is left as it is |
| Render.KeptIs | crates/newgit-core/src/render.rs:355-371 | of overlapping matches the first is replaced, and one passed over starts inside one that was |
| RenderLines.OnlyRenderedLines | crates/newgit-core/src/render.rs:373-402 | where rendered lines were kept, the values taken back are exactly those on rendered lines, and nothing is left unplaced |
| Reverser.RestoredAtSpans | crates/newgit-core/src/render.rs:403-506 | then the committed text is put back at each of those spans, none overlapping, and nothing else changes |
| Reverser.UneditedComesBack | crates/newgit-core/src/render.rs:403-506 | a file nobody edited comes back as it was committed |
| RenderLimits.ComesBackExactlyWhen | crates/newgit-core/src/render.rs:168-187 | every accepted render of a value alone is reversed to its committed text, if and only if the value is non-empty and cannot overlap itself |
| RenderLimits.OverlapComesBackWrong | crates/newgit-core/src/render.rs:168-187 | a concrete value that overlaps itself passes the count check and is reversed to something else |
| Reverser.CountedAreTaken | crates/newgit-core/src/render.rs:403-506 | in a file that holds each value as often as declared every one is taken back, wherever its lines are now, and nothing is left unplaced |
| Reverser.OneClaimTakenOut | crates/newgit-core/src/manager.rs:4884-4915 | taking one claim of several out of a finished file leaves exactly the substitution of the others, though only that claim's own render was there to compare with |
| Landing.ProjectDO.constructor | remote/src/project.ts:159-172 | opening what was stored before heads existed gives every branch heads that replay from its log |
| Landing.ProjectDO.MoveHeads | remote/src/project.ts:181-200 | one row for each head that moves and no other, each saying what was there; heads, list and log stay one map |
| Landing.ProjectDO.HeadsAreLists | remote/src/project.ts:202-212 | a branch's heads, its stored list and the replay of its log are one and the same map |
| Landing.ProjectDO.CreateBranch | remote/src/project.ts:291-299 | a new branch starts at its list, logged from nothing; an existing one is left alone |
| Landing.ProjectDO.BeginMerge | remote/src/project.ts:308-334 | refused unless the list is still the base; of the merges pending, those into this branch whose time is up are gone and the others untouched, and the passwords returned are theirs and those of this very merge begun before |
| Landing.PasswordsAccountedExactlyWhen | remote/src/project.ts:308-334 | every password is kept or returned when a merge begins, if and only if it does not write over another merge to the same root commit |
| Landing.ProjectDO.RecordMergeTokens | remote/src/project.ts:337-342 | a password is held afterwards if and only if it was, or is one of these and such a merge is pending; every other merge is left as it was |
| Landing.ProjectDO.Land | remote/src/project.ts:371-399 | lands exactly when already landed or every head compared is as the merge began, replaces the whole list in one write, hands back the merge's passwords and moves, and otherwise changes nothing |
| Landing.HandedBackOnce | remote/src/project.ts:375-389 | landing again hands back no password, the same moves, and changes nothing |
| Landing.ReplacesBaseExactlyWhen | remote/src/project.ts:390-394 | an admitted landing replaces exactly its base if and only if every tracker it did not compare is where it leaves it |
| Landing.LandingTakesBack | remote/src/project.ts:390-394 | a landing can take back another tracker's move it did not compare |
| Landing.IndexedLandingReplacesBase | remote/src/project.ts:390-394 | where a root commit determines its list, an admitted landing replaces exactly its base |
| Landing.SecondIsRefused | remote/src/project.ts:390-394 | of two merges begun on one list that both move one tracker the second to land is refused; once root has moved, any is |
| Landing.ProjectDO.WasHead | remote/src/project.ts:407-420 | says yes exactly when the commit was that head at some moment of the log |
| Landing.InLogMeans | remote/src/project.ts:407-420 | the old and new columns hold every head there ever was and nothing else |
| Follow.StepKeepsSafe | remote/src/follow.ts:77-102 | every landing, push, read, question and single compare-and-swap keeps the invariant of all followers at once |
| Follow.NothingIsLost | remote/src/follow.ts:71-102 | over every interleaving, a commit a follower overwrote was a head or is kept at its stray ref, and a landing ref it deleted was named for, or held, a commit that was a head |
| Follow.KeptFromThenOn | remote/src/follow.ts:71-102 | what was a head stays one that was; what is kept stays kept |
| Follow.OnlyToHeads | remote/src/follow.ts:77-102 | a follower moves the branch only to a commit that was a head |
| Follow.FollowRoot | remote/src/follow.ts:77-102 | attempts follow one another until one reaches the branch, whatever others do between; it is behind if and only if the last of all attempts did not; undisturbed, one brings the branch to the head, keeps what was never a head, deletes landed commits' landing refs and moves nothing else |
| Follow.TryOnce | remote/src/follow.ts:77-100 | one attempt plans from the refs it read and swaps against those it meets, and says it reached the branch exactly when it did |
| Follow.ReachedIsThere | remote/src/follow.ts:98-100 | an attempt that met the branch as it read it leaves it at the head |
| Follow.NotReachedIsElsewhere | remote/src/follow.ts:98-100 | an attempt that met it elsewhere leaves it there |
| Follow.OlderHeadMovesBack | remote/src/follow.ts:77-98 | two followers at once need not converge: one that read an older head can leave the branch at it, both ending content |
| Follow.Plan | remote/src/follow.ts:80-96 | the updates array holds exactly the updates due, one a ref, each naming what the ref holds |
| Follow.RootRepo.UpdateRefs | remote/src/follow.ts:98-99 | each update is made where its ref holds what it must, and its ref is reported moved if and only if it was made |
| Locks.KeepsSafe | crates/newgit-core/src/lock.rs:69-203 | every step of an acquirer, a releaser, a crash or a pruner keeps the invariant, but for a removal while someone holds the lock, which never does |
| Locks.MutualExclusion | crates/newgit-core/src/lock.rs:69-137 | over every interleaving in which no file is removed while the lock is held, no two processes hold it at once, and the holder's file is the one at the path |
| Locks.OwnRemovalsHarmless | crates/newgit-core/src/lock.rs:155-180 | with any number of pruners at once, no removal happens under a holder where each removes only the file it locked |
| Locks.OnePruneIsHarmless | crates/newgit-core/src/lock.rs:155-180 | runs of prune that do not overlap do just that |
| Locks.PathRemoved | crates/newgit-core/src/lock.rs:167-179 | a removal leaves every holder's file at the path if and only if nobody holds the lock then |
| Locks.RefusedOnlyUnderAncestor | crates/newgit-core/src/lock.rs:86-96 | a command is refused as nested only while the acquisition that minted its token holds the lock, or has died holding it |
| Locks.TwoPrunersBreakIt | crates/newgit-core/src/lock.rs:167-179 | two overlapping prunes let two commands hold the lock |
| Governance.ClaimOn | remote/src/index.ts:1358-1369 | the longest claim's length, nothing when an exclusion or no claim covers the path, whatever order they are written in |
| Claims.CoversExactly | remote/src/index.ts:1330-1352 | a claim covers the paths whose segments begin with its tracker's mount's and then its own |
| Claims.ClaimedExactlyWhen | remote/src/index.ts:1358-1369 | a path is claimed if and only if some claim covers it and no exclusion does |
| Claims.LongestCounts | remote/src/index.ts:1358-1369 | what counts of a claim is the length of the longest that covers the path |
| Claims.SlashParts | remote/src/index.ts:1330-1333 | a path's segments are those before any of its slashes and then those after |
| Claims.DepthIsSegments | remote/src/index.ts:1379 | a mount is as deep as it has segments |
| Governance.FindOwner | remote/src/index.ts:1378-1392 | the deepest mount decides, then the longest claim, then the lesser name, in whatever order definitions come |
| Claims.OwnerExactlyWhen | remote/src/index.ts:1378-1392 | a tracker owns a path if and only if it is in Git, mounted over it and claims it, no mount over it is deeper, and no claim there is longer, or as long and of a lesser name |
| Governance.Above | remote/src/index.ts:1416-1424 | the bounded loop is right: as many steps as there are files follow any chain that ends |
| Governance.SettleHolders | remote/src/index.ts:1414-1443 | the pass computes the same holders on every read, whatever order the definitions come in |
| Governance.ChainsEndAtAccess | remote/src/index.ts:1402-1443 | after a pass every chain of holders still ends at access |
| Governance.OnlyDownward | remote/src/index.ts:1394-1443 | a file leaves its holder only for access or for a tracker whose own definition that holder held when its turn came, and only one that claims it; nobody holds their own |
| Claims.TakesExactlyWhen | remote/src/index.ts:1425-1440 | the next holder is the owner of the file among its holder and the trackers whose own file that holder has, as far as their chains do not meet it |
| Claims.KeepsWhatItHolds | remote/src/index.ts:1405-1406 | a holder whose claim on the file is beaten by none of these keeps it |
| Governance.EveryRoundIsForest | remote/src/index.ts:1477-1506 | in every round of resolving definitions each chain ends at access |
| Governance.LoadDefinitions | remote/src/index.ts:1460-1506 | at most four rounds, each reading from the holders the one before it settled; fewer only at a fixed point |
| Claims.RelativeIsBelow | remote/src/index.ts:1342-1345 | a path relative to a mount, below that mount, is the path |
| Claims.ReadFromHolder | remote/src/index.ts:1471-1494 | a definition is what its holder's file says, under that holder's mount; `access` alone is read at the definitions' own place besides, and only `root` and `access` need no file |
| Claims.NextReads | remote/src/index.ts:1495-1506 | in the next round each is read from its next holder, under the mount that has now |
| Walk.IsAncestor | remote/src/walk.ts:133-159 | terminates; when it answers says exactly whether a way to the target exists on which every commit walked through is new enough, and defers to Git only where a commit is unreadable or the walk would exceed its bound |
| Walk.HonestAnswer | remote/src/walk.ts:126-159 | that is Git's answer where every descendant of the target is dated at most a day before it |
| Walk.SlowClockHides | remote/src/walk.ts:152-156 | a clock more than a day slow makes the walk deny an ancestor |
| Index.ReadIndex | remote/src/walk.ts:60-82 | lists a closed set of mounts from the root, matches exactly when that is the list given, and defers only when a mounted commit cannot be read |
| Index.IndexWith | crates/newgit-core/src/compose.rs:820-836 | lists a closed set of mounts from the root, a commit that is not here pinning nothing |
| Index.OneIndex | crates/newgit-core/src/compose.rs:820-836 | where each tracker is pinned at one commit there is one such listing, so both walks give it, and it is every mount |
| Index.MountedIsLeast | crates/newgit-core/src/compose.rs:820-836 | mounted is the least that holds root and what a mounted commit pins, under its full id |
| Scan.FileContainsAny | crates/newgit-core/src/installs.rs:836-878 | whatever the pattern of short reads, the overlapping window says yes exactly when some needle occurs in the whole file |
| Scan.WindowEnough | crates/newgit-core/src/installs.rs:829-834 | an overlap of one byte less than the longest needle misses no match across a boundary |
| Checks.BackgroundChecks.Collect | remote/src/endpoint.ts:180-187 | after pruning: nothing, running, or the outcome, which then leaves the map |
| Checks.BackgroundChecks.Start | remote/src/endpoint.ts:190-217 | a key held already goes on as it was; another is running from now, under a number no run had, every other entry unchanged |
| Checks.BackgroundChecks.Complete | remote/src/endpoint.ts:201-208 | the entry gets the outcome if and only if it is still that run's and has none; nothing else changes |
| Checks.BackgroundChecks.Prune | remote/src/endpoint.ts:225-239 | old outcomes are forgotten, long runs given up on, and every other entry left as it is |
| Checks.BackgroundChecks.CountRunning | remote/src/endpoint.ts:220-223 | counts the entries without an outcome, after pruning |
| Checks.StepKeepsSafe | remote/src/endpoint.ts:171-239 | every start, end, count and collection keeps each entry's outcome that of the run started for its key |
| Checks.AnsweredOnce | remote/src/endpoint.ts:201-208 | a run's outcome is set once and what was collected stays collected |
| Checks.CollectsItsOwn | remote/src/endpoint.ts:180-187 | what is collected is the outcome of the run now held for that key, never collected before |
| Checks.NeverForItsSuccessor | remote/src/endpoint.ts:201-205 | a run given up on, replaced or forgotten changes nothing when it ends |
| Checks.AnswersForItself | remote/src/endpoint.ts:201-208 | a run that ends leaves every other run's outcome and every other entry as they were |
| Checks.PrunedExactly | remote/src/endpoint.ts:225-239 | an outcome is kept for five minutes from when it came and no longer; a check without one goes on up to its limit and has failed past it |
| Checks.OutcomeWaits | remote/src/endpoint.ts:177-239 | over any run of starts, ends, counts and other collections within that time, an outcome stays to be collected |

## Left out

- Cycle guards and depth limits (32 and 64 mounts): ids cover their pins, so no commit can mount itself.
- The branch of `split_part` for children that share a mount or do not claim all of it, and definitions mounted at `.`: `Split.ChildrenIn` gives an error there.
- `refuse` and the mixed-audience refusal: which commits are turned away before splitting, not what splitting gives.
- Canonical notes, signing, and rebuilding without a signature's headers: a view commit's origin is always itself.
- How `root_of` finds a commit already split (notes, trailers, root's own history): a map given to the split.
- `SplitOutcome`'s index is `Index.IndexWith` of the root commit; writing notes, refs and objects is left to Git.
- Fetching history before asking about a child's ancestry (`need_history`): of commits that are here, ancestry is read from the commits themselves; of one that is not, Git gives no answer.
- `GitEndpoint`'s own snapshot stores and per-tracker proofs of what is held, its plan pruning and caching: `admit` is any predicate here.
- Hex and SHA-1: an id in a tree is its twenty bytes, a commit's id is arbitrary text.
- TreeEdits.DiffInto: the order in which changed paths are listed is not stated, only that each is listed once.
- Index.IndexWith: which copy of a tracker pinned at two commits is listed first is not stated.
- Reverser.ReverseRendered: names the rules left unplaced, not the text of the message about them.
- Governance.LoadDefinitions: trackers defined inside other trackers (`addNested`) are not added, and which names a file answers for is not kept.
- Follow.FollowRoot: the child branches a merge asks to move, which follow after root's, are not modelled.
- Landing.ProjectDO.Land: who moved a head and when are not in the log's rows.
- `destroy`, project re-creation, instances, checkpoints, members and webhook pulls.
- Checks.BackgroundChecks.Start: the promise a run is, and waiting for it (`settled`), are not modelled; a run is a number and its end a call of `Complete`.
- Scan.FileContainsAny: read errors, and the reuse of one buffer between files.
- Locks: error returns of the file system, and two independent commands waiting on each other.
- Texts of errors, logging, command lines and HTTP.
