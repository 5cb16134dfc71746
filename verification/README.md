# Artalk: comments, votes, verification, limits

Artalk is a comment server. This project models the parts of it that keep invariants over unbounded
data, over whole runs, or over interleavings of requests, and proves those invariants. Nothing here is
executed; `dafny verify dfyconfig.toml` checks everything.

The tables of the database are finite maps from ids to rows, changed in place by the methods of a class.
Each method is proved against a specification function or predicate on table values, and the theorems are
about those. Strings are sequences of runes. Clocks, the network, the order of query results, and what
other requests do between two statements are parameters or events, and theorems hold for all of them.

| File | Subject |
|---|---|
| ParentLinks, DepthFirst | parent links as a graph: the root walk with its cycle guard, descent, subtree removal, depth-first listings |
| Entity, CommentForest, VoteLedger, AccountMerge, Authoring, PageRename, PageDeletion | the rows, and what creation, edits, deletion, votes, merges and renames do to them |
| Database | class `Dao`: the statements and handlers on the tables |
| Histories, Server | any sequence of sound requests keeps the forest, the root column and the ledger; the requests performed by the handlers |
| RootMigration | the recursive query against the climb from every comment |
| GenIds, Importer, ImportedThreads | the renumbering import |
| Exporter, RoundTrip, Converter | export, export followed by import, conversion of foreign files |
| EmailVerify, EmailSteps | the challenge protocol under every interleaving, and its steps one by one |
| RateLimiter, CaptchaLimiter, PageFetch | the three limiters and the redirect budget |
| Keywords | blocking and masking keywords |
| PageCache, FindCreate, SiteUrls | cached lookups, singleflight find-or-create, URL lists of sites |
| Text, Least, Options | strings, the first row of a query, optional values |

## Where the code does not do what one might expect

Each of these is a theorem below: where something fails, the theorem says exactly when, and the member in
parentheses after it is an input for which it does.

- Deletion of a comment terminates and removes exactly its subtree on a table of any shape, cycles included,
  since a row is deleted before the descent from it starts (`ParentLinks.RowThenDescendants`). The depth-first
  search alone ends only if the start is not below itself (`ParentLinks.CyclicDescentIsUnbounded`).
- Deleting a page deletes its comments one by one, not with what is below them. The table stays valid exactly
  if no comment on another site answers one of them: `PageDeletion.PageDeletionKeepsForest`
  (`PageDeletion.AnswerOnOtherSiteDangles`).
- Editing a comment can take it to another page. The table stays valid exactly if the comment then neither
  answers nor is answered: `Authoring.EditKeepsForest` (`Authoring.MovedAnswerLeavesThread`).
- Renaming a page takes the comments of other sites with the same key along: `PageRename.PageAfterRename`
  (`PageRename.OtherSiteLosesPage`).
- Editing a comment adds an account without a name or email exactly if the edit gives a link, and the name and
  email it asks for cannot be those of an account: `Authoring.EditAddsBlankAccount`
  (`Authoring.LinkAddsBlankAccount`). The handler then saves the zero user.
- The two paths of the root migration agree exactly on answers whose chain reaches an existing root:
  `RootMigration.PathsAgree` (`RootMigration.PathsDisagree`). On roots the backup path leaves the comment's own
  id, and on dangling or cyclic chains only the backup path stores an id.
- All roots of an import are right exactly if every row that is answered has its own parent in the file (or
  none), and no such row has a blank parent that another row is named after, but for two rows that name each
  other: `ImportedThreads.ImportIsIndexed` (`ImportedThreads.ParentLeftBehind`,
  `ImportedThreads.BlankParentMisread`).
  Blank names that no blank parent matches do no harm. An import as a whole leaves a valid table exactly if it
  also is acyclic, and keeps answers on the pages of what they answer: `ImportedThreads.ImportKeepsForest`.
- Skipped rows shift the parent links of later ones: `ImportedThreads.SkippingShiftsParents`
  (`ImportedThreads.SkippedRowShifts`). They shift the dates as well: `ImportedThreads.KeptRowIsCopied`
  (`ImportedThreads.SkippedRowTakesDates`).
- Negative counters, and only those, break the ledger: `ImportedThreads.ImportKeepsLedger`
  (`ImportedThreads.NegativeCounterBreaksLedger`).
- The exporter remembers pages by key alone. A comment whose key was first looked up on a site without that
  page loses its key, and the import skips it: `RoundTrip.KeyIsExported` (`RoundTrip.KeyIsLost`).
- Voting twice puts the counts back exactly if the address had not voted the other way before:
  `VoteLedger.VoteTwice` (`VoteLedger.SwitchIsNotUndone`).
- After a merge the target is the only account with the email exactly if trimming leaves the same address:
  `AccountMerge.MergeLeavesOneAccount` (`AccountMerge.UntrimmedEmailIsLost`). The handlers that store an email
  validate it; accounts of the configuration file are stored as they are written
  (internal/core/conf_sync.go:21-53).
- The rate limiter admits at most 2 * total - 1 calls in any interval as long as a window; of one key at most
  2 * perKey if the total is greater than perKey, and 2 * total - 1 otherwise (`RateLimiter.SlidingBound`). For
  all limits these are the least bounds if a window is at least two time units long
  (`RateLimiter.TotalBoundIsReached`, `RateLimiter.KeyBoundIsReached`).
- Writes by id that drop the cache entries of a page as it was before leave the cache stale exactly if the
  page was renamed meanwhile, is cached under its present name, and the write changed something:
  `PageCache.StaleDropCoherent`. For fetched titles that is `PageCache.TitleFetchCoherent`
  (`PageCache.RenamedWhileFetching`); the automatic fetch only fills in missing titles, and so cannot make an
  existing one stale.
- A cache name stands for one page exactly if the separator is neither in the key nor in the site:
  `PageCache.UnambiguousNames` (`PageCache.TwoPagesOneName`).
- A single keyword never survives masking exactly if it neither starts nor ends with the mask:
  `Keywords.OneKeywordIsClean`; and removing it never leaves it exactly if all its runes are equal:
  `Keywords.OneKeywordRemoved` (`Keywords.UnsafeMasksLeak`). For a list of keywords a replacement without any of
  their runes is enough (`Keywords.CensoredIsClean`); it is not necessary, since other replacements leak only
  where what they cut out for one keyword completes another: what a replacement puts together is not replaced
  (`Keywords.LateKeywordStays`, `Keywords.KeywordPutTogether`). A keyword file that cannot be read leaves those
  before it in use (`Keywords.KeywordsChecker.LoadKeywords`).
- A site that an import creates stores its URLs as they are written. The next import of the same URLs leaves
  the list alone exactly if each of them stands in it trimmed: `SiteUrls.CreatedSiteIsStable`
  (`SiteUrls.CreatedSiteMayGrow`).

## Model

| member | source | states |
|---|---|---|
| ParentLinks.WalkIsRoot | internal/dao/query_find.go:47-62 | on every table the guarded walk ends at r if and only if r is the end of the chain, or the first id of it on a cycle |
| ParentLinks.ChildIsSmaller | internal/dao/query_find.go:84-98 | the depth-first search terminates: a child of a comment that is not below itself has a strictly smaller subtree, and is not below itself |
| ParentLinks.SiblingsDisjoint | internal/dao/query_find.go:90-98 | subtrees of two children do not meet, so no comment is listed twice |
| ParentLinks.RowThenDescendants | server/handler/comment_delete.go:32-40 | deleting a row and then what is below it removes its subtree, on a table of any shape; after the first step the row is not below itself |
| ParentLinks.ClosureInSteps | internal/dao/query_del.go:103-130 | removing two sets of subtrees one after the other removes the subtrees of their union |
| ParentLinks.CyclicDescentIsUnbounded | internal/dao/query_find.go:84-98 | from an id below itself the descent can be followed to any depth |
| DepthFirst.DepthFirstIsDescendants | internal/dao/query_find.go:84-98 | a listing with parents first and contiguous subtrees holds each descendant exactly once and nothing else |
| DepthFirst.NextSubtree | internal/dao/query_find.go:90-98 | appending one more child and then its listing keeps the listing depth first |
| CommentForest.RootColumnNamesRoots | internal/entity/comment.go:34 | in a valid table the root column is 0 exactly on roots, and otherwise names an existing root |
| CommentForest.RootColumnIsDescent | internal/entity/comment.go:34 | the rows whose root column is r are exactly the descendants of r |
| CommentForest.LeafKeepsForest | server/handler/comment_create.go:124-140 | a new leaf keeps the forest acyclic and closed, and changes no other root |
| CommentForest.CreationKeepsForest | server/handler/comment_create.go:89-157 | an accepted comment keeps the forest, the root column and the page of every thread |
| CommentForest.CommentDeletionTakes | server/handler/comment_delete.go:27-42 | deleting a comment deletes it and everything below it; a notify or comment vote goes exactly if its comment goes; nothing else changes |
| CommentForest.UserDeletionTakes | internal/dao/query_del.go:103-130 | deleting a user deletes the account, its identities, and its comments with everything below them, notifies and votes; nothing else changes |
| CommentForest.ClosedRemovalKeepsForest | internal/dao/query_del.go:9-50 | removing rows with all answers to them leaves no dangling link, no cycle and no wrong root |
| CommentForest.SubtreeRemovalKeepsForest | internal/dao/query_del.go:9-50 | removing whole subtrees leaves no dangling link, no cycle and no wrong root |
| CommentForest.SubtreeRemovalAddsNoDanglingLink | internal/dao/query_del.go:9-50 | on any table, subtree removal leaves a link dangling only if it dangled before |
| CommentForest.WalkWithout | internal/dao/query_find.go:47-62 | removing a descent-closed set changes no root outside of it |
| PageRename.RekeyKeepsForest | server/handler/page_update.go:72-83 | moving the comments of a page keeps the forest, and answers on the page of what they answer |
| PageRename.PageEditChanges | server/handler/page_update.go:70-85 | an edit of a page sets its key, title and flag, and moves exactly the comments that had its old key; all else stays |
| PageRename.OtherSiteLosesPage | server/handler/page_update.go:74-80 | a rename on one site leaves a comment of another site without a page |
| PageDeletion.PageDeletionKeepsForest | internal/dao/query_del.go:58-64 | deleting the comments of a page leaves a valid table if and only if no comment on another site answers one of them |
| PageDeletion.AnswerOnOtherSiteDangles | internal/dao/query_del.go:58-64 | an answer on another site is left with a parent that does not exist |
| PageDeletion.PageDeletionTakes | internal/dao/query_del.go:52-80 | deleting a page deletes it, exactly the comments with its key and site, their notifies and votes, and its own votes; nothing else changes |
| PageDeletion.PageDeletionKeepsLedger | internal/dao/query_del.go:58-72 | the votes of the page and of its comments go with them; counters stay right and no vote is orphaned |
| Authoring.EditKeepsForest | server/handler/comment_update.go:104-135 | changing a row but not its links keeps the table valid if and only if the comment stays on its page, or neither answers nor is answered |
| Authoring.AcceptedExactly | server/handler/comment_create.go:53-116 | the conditions under which a comment is accepted, for the email, for pages and names of administrators, for tokens, visitors and what is answered |
| Authoring.NobodyWritesAsAdmin | server/handler/comment_create.go:186-204 | a comment under the name and email of an administrator is stored for an administrator |
| Authoring.CommentIsAsSent | server/handler/comment_create.go:104-157 | the row of an accepted comment holds what was sent, for the account of the token or of the visitor; no other row changes |
| Authoring.CreationAddsPage | server/handler/comment_create.go:118-121 | the page exists afterwards, a new one with the title sent; no other page changes |
| Authoring.EditChangesWhatIsGiven | server/handler/comment_update.go:78-135 | an edit replaces exactly the fields that are given, and the flags |
| Authoring.EditedAccount | server/handler/comment_update.go:83-96 | an edited comment belongs to the account of the name and email given or known, or stays where these are no account's |
| Authoring.EditAddsPage | server/handler/comment_update.go:104-108 | an edit adds a page only for a key that is new to the comment, on the site of the request |
| Authoring.EditAddsBlankAccount | server/handler/comment_update.go:84-102 | an edit adds an account without a name if and only if it gives a link and there is no account of the name and email it asks for, nor can one be created |
| Authoring.LinkAddsBlankAccount | server/handler/comment_update.go:84-102 | an edit of nothing but the link, for a comment of an account whose email is none |
| Authoring.PageIsThere | internal/dao/query_find_create.go:53-60 | after a page was found or created there is one of that key and site |
| Authoring.MovedAnswerLeavesThread | server/handler/comment_update.go:104-108 | an answer that is moved to another page breaks the rule that answers stay on the page of what they answer |
| PageRename.PageAfterRename | server/handler/page_update.go:72-83 | a comment keeps its page if and only if it is not one of another site with the same key, or that site has a page under the new key |
| VoteLedger.OneVoteIsHeld | server/handler/vote.go:217-224 | a real address holds one choice per target, whatever order the query returns |
| VoteLedger.VoteTouchesOnlyItsOwn | server/handler/vote.go:213-244 | a ballot changes no vote row of another address or target |
| VoteLedger.VoteIsRecorded | server/handler/vote.go:213-244 | the new row has voter, address, target and choice of the ballot; rows of that address on that target go, all others stay |
| VoteLedger.VoteChangesCountersOnly | server/handler/vote.go:246-289 | a ballot changes nothing in comments and pages but the two counters of its target |
| VoteLedger.VoteIsHeld | server/handler/vote.go:222-244 | afterwards the address holds what was selected, and nothing else |
| VoteLedger.VoteMovesCount | server/handler/vote.go:246-252 | each count moves by the difference between the new and the old choice |
| VoteLedger.VoteKeepsLedger | server/handler/vote.go:192-289 | a ballot keeps every counter equal to its rows, no vote orphaned, and one vote per address |
| VoteLedger.VoteToggles | server/handler/vote.go:222-231 | repeating a choice withdraws it, the other choice replaces it, and the stored counters follow |
| VoteLedger.VoteTwice | server/handler/vote.go:222-231 | two equal ballots restore both counts if and only if the address had not voted the other way |
| VoteLedger.SwitchIsNotUndone | server/handler/vote.go:222-231 | from the opposite choice two equal ballots end with no vote at all |
| VoteLedger.VoteSyncRepairs | internal/dao/service.go:173-195 | synchronising makes every counter right, and changes nothing if and only if none was wrong |
| VoteLedger.SyncChangesCountersOnly | internal/dao/service.go:173-195 | synchronising touches nothing but counters |
| VoteLedger.RemovalKeepsLedger | internal/dao/query_del.go:15-23 | deleting comments deletes exactly their votes, those of a page with the same id not |
| VoteLedger.CreationKeepsLedger | internal/dao/query_new.go:81-105 | a fresh row with zero counters keeps the ledger right |
| AccountMerge.MoveOneMoreComments | server/handler/auth_merge_apply.go:104-111 | moving the comments of one more user adds exactly that user's comments to those moved, and to their number |
| AccountMerge.StepsAreMerge | server/handler/auth_merge_apply.go:66-149 | finding the target, setting its flag, moving rows and deleting users make up a merge: only owners change, and only merged accounts disappear |
| AccountMerge.MergeChangesOwnersOnly | server/handler/auth_merge_apply.go:104-119 | comments and notifies of every other account with the email belong to the target afterwards, and are otherwise as they were, like those of all others |
| AccountMerge.MergeChangesVotersOnly | server/handler/auth_merge_apply.go:121-134 | so do votes and identities |
| AccountMerge.MergeKeepsOtherUsers | server/handler/auth_merge_apply.go:66-149 | of the accounts with the email only the target is left, which is an administrator exactly if one of them was; other accounts are unchanged |
| AccountMerge.MergeLeavesOneAccount | server/handler/auth_merge_apply.go:66-149 | the target is the only account left with the email if trimming keeps the address, otherwise none is left |
| AccountMerge.UntrimmedEmailIsLost | server/handler/auth_merge_apply.go:60-149 | merging an account with an untrimmed email creates another one with the trimmed email and deletes the first |
| AccountMerge.MergeOrphansNothing | server/handler/auth_merge_apply.go:104-140 | no comment, notify, vote or identity is lost, and none loses its owner |
| AccountMerge.CascadeIsEmpty | internal/dao/query_del.go:103-130 | once its rows are moved, deleting a user deletes the user row and nothing else |
| Database.Dao.FindCommentRootID | internal/dao/query_find.go:47-62 | returns the root as WalkIsRoot describes it, for tables of any shape |
| Database.Dao.FindCommentChildrenShallow | internal/dao/query_find.go:65-82 | returns each direct answer exactly once |
| Database.Dao.FindCommentChildren | internal/dao/query_find.go:84-88 | returns each descendant exactly once, depth first |
| Database.Dao.AppendChildren | internal/dao/query_find.go:90-98 | appends a depth-first listing to what was listed before |
| Database.Dao.DelComment | internal/dao/query_del.go:9-37 | removes one comment, exactly the notifies of it, and exactly the comment votes for it |
| Database.Dao.DelCommentChildren | internal/dao/query_del.go:40-50 | removes exactly the descendants with their notifies and votes |
| Database.Dao.DelCommentTree | internal/dao/query_del.go:107-120 | removes exactly a comment and its descendants, on a table of any shape |
| Database.Dao.CommentDelete | server/handler/comment_delete.go:27-42 | a missing comment is reported; otherwise its subtree is gone and nothing else |
| Database.Dao.DelUser | internal/dao/query_del.go:103-130 | removes the user, the identities, and every comment of the user with everything below it, nested ones included |
| Database.Dao.DelCommentTrees | internal/dao/query_del.go:107-120 | rows of the list that are already gone do no harm |
| Database.Dao.ResolveAuthor | server/handler/comment_create.go:104-116 | the account of a token, or that of a visitor, found or created, with the profile taken over without a login system; without an account to be had nothing changes |
| Database.Dao.IsAllowComment | server/handler/comment_create.go:186-204 | on a page for administrators, or under the name and email of one, whoever writes must be logged in as one, and a token that is given must be that of an account |
| Database.Dao.FindCreatePage | internal/dao/query_find_create.go:53-60 | a page of that key and site exists afterwards, and is created only if the query finds none |
| Database.Dao.CommentCreate | server/handler/comment_create.go:53-157 | each refusal, in the order of the checks: email, administrators only or a bad token, the parent, the account; refusals change nothing, otherwise there are account, page and row |
| Database.Dao.CommentUpdate | server/handler/comment_update.go:64-135 | what is refused; which fields an edit replaces, whose account and which page it may create, when it saves the zero user, and that nothing else changes |
| Database.Dao.DelPage | internal/dao/query_del.go:52-80 | the page, the comments with its key and site, their notifies and votes, and its own votes are gone, and nothing else |
| Database.Dao.CreatePage | internal/dao/query_new.go:81-93 | adds one page with zero counters |
| Database.Dao.MoveCommentsToKey | server/handler/page_update.go:74-80 | every comment with the old key, and no other, has the new one |
| Database.Dao.PageUpdate | server/handler/page_update.go:53-85 | refuses a missing page, or a new key that is in use; otherwise the page has its new key, title and flag, and all comments with the old key have the new one |
| Database.Dao.GetVoteNum | internal/dao/query_find.go:219-223 | the number of vote rows of one type and target |
| Database.Dao.ReplaceVotes | server/handler/vote.go:213-244 | old rows of the address are gone, and the selected choice is a new row |
| Database.Dao.UpdateVote | server/handler/vote.go:192-289 | rows and both counters after a ballot, and what is reported of them; nothing changes for a missing target |
| Database.Dao.VoteSync | internal/dao/service.go:173-195 | every counter of comments and pages equals its number of rows |
| Database.Dao.FindCreateUser | internal/dao/query_find_create.go:62-84 | finds the account of a name and an email in any case, or creates one if there is none; refuses blanks and invalid emails |
| Database.Dao.MoveRowsOf | server/handler/auth_merge_apply.go:104-134 | the rows of one user in four tables get a new owner, with their numbers |
| Database.Dao.AuthMergeApply | server/handler/auth_merge_apply.go:60-149 | a successful request is a merge, and the numbers it reports are the rows it moved and the users it deleted; any other changes nothing, and has the reason it gives |
| Server.Execute | server/handler/comment_create.go:48-173 | the handlers perform every request as a step of a history says, and keep a valid database valid where it is sound |
| Histories.EmptyIsValid | internal/dao/migrate.go:10-52 | a new database is valid |
| Histories.CreationKeepsValid | server/handler/comment_create.go:89-157 | an accepted comment with its account and page keeps forest, root column and ledger |
| Histories.EditKeepsValid | server/handler/comment_update.go:64-135 | so does an edit that leaves its thread together, whatever account or page it adds |
| Histories.DelPageKeepsValid | internal/dao/query_del.go:52-80 | so does deleting a page without answers on other sites |
| Histories.StepKeepsValid | server/handler/comment_create.go:53-157 | every request keeps the forest, the root column and the ledger; edits, page deletions and unskipped imports where they do no harm |
| Histories.RootColumnInEveryState | internal/entity/comment.go:34 | in every state of a run the root column is 0 exactly on roots and otherwise names the root above the row, and counters are the numbers of vote rows |
| Histories.ImportKeepsValid | internal/artransfer/importer.go:80-302 | a sound import keeps them too |
| Histories.UpdatePageKeepsValid | server/handler/page_update.go:70-85 | so does editing a page, which moves its comments when the key changes |
| Histories.EveryStateIsValid | internal/dao/query_find.go:47-98 | in every state of every run links are acyclic and closed, the root column agrees with the walk, answers are on the page of what they answer, and the ledger is right |
| Histories.SyncNeverNeeded | internal/dao/service.go:173-195 | in no state of a run does synchronising change a counter |
| Histories.ListingIsRootColumn | internal/dao/query_find.go:84-98 | in every state of a run, the depth-first result for a root is, without duplicates, the set of rows whose root column names it |
| RootMigration.Migration.CommentHierarchy | internal/dao/migrate.go:92-102 | the recursive query yields x with root r if and only if the chain of x reaches the existing root r; it ends on cyclic tables |
| RootMigration.Migration.MigrateTopDown | internal/dao/migrate.go:92-110 | 0 on roots, the root on rows that reach one, NULL elsewhere |
| RootMigration.Migration.MigrateBottomUp | internal/dao/migrate.go:115-125 | the result of the walk from the comment itself, for every row |
| RootMigration.PathsAgree | internal/dao/migrate.go:92-125 | the two paths store the same for a row if and only if it answers something and its chain reaches an existing root |
| RootMigration.PathsDisagree | internal/dao/migrate.go:92-125 | a root, an answer to a missing comment, and one to itself get different ids from the two paths |
| RootMigration.ClimbFromParent | internal/dao/migrate.go:121-125 | for answers that are on no cycle, climbing from the comment and from its parent ends at the same root |
| GenIds.GenWalkIsWalk | internal/artransfer/importer.go:372-390 | on every input where no blank parent names a row, the importer's climb is the table walk over positions, except that it gives 0 where the chain dangles; it terminates on cycles |
| GenIds.WalkOfStored | internal/artransfer/importer.go:372-396 | the walk over positions and the walk over stored ids visit the same rows, and stop at the same row of a cycle |
| GenIds.StoredRootIsWalk | internal/artransfer/importer.go:372-396 | where no blank parent names a row, the stored root is the one FindCommentRootID finds if and only if the chain does not leave the file |
| GenIds.ClosedRootsAreRight | internal/artransfer/importer.go:372-396 | where no blank parent names a row, it always is with closed parents |
| GenIds.NoBlankIdsSuffice | internal/artransfer/importer.go:381-384 | no blank parent names a row if no blank name is used as one |
| GenIds.StoredRootAgrees | internal/artransfer/importer.go:372-396 | for every file a stored root is right if and only if the two climbs agree before anything is stored |
| GenIds.BlankParentBreaksRoots | internal/artransfer/importer.go:381-384 | a row whose blank parent is taken for another row, and which is on no cycle, gives every answer to it a wrong root |
| GenIds.DanglingBreaksRoots | internal/artransfer/importer.go:386-388 | a row whose parent is not in the file gives every answer to it root 0 |
| GenIds.RootsAgree | internal/artransfer/importer.go:372-396 | for every file all roots are right if and only if every answered row has its parent in the file (or none), and no blank parent of one names another row, but for two that name each other |
| GenIds.BlankIdBreaksRoots | internal/artransfer/importer.go:381-384 | rows of which one is named "0" get a root that differs from the walk although parents are closed |
| Importer.BuildGenIdMap | internal/artransfer/importer.go:360-366 | an id maps to one more than the last position that has it, anything else to 0 |
| Importer.GetRootID | internal/artransfer/importer.go:373-390 | terminates for every input and finds the root that GenIds compares |
| Importer.BuildRid2RootGenIdMap | internal/artransfer/importer.go:372-396 | every parent that occurs is mapped to the root of its thread |
| Importer.PrepareRows | internal/artransfer/importer.go:87-215 | the rows to insert are those with a site and a page key, in order |
| Importer.CreateMockVotes | internal/artransfer/importer.go:257-267 | adds that many anonymous vote rows, none for a negative number |
| Importer.BatchInsert | internal/artransfer/importer.go:212-214 | the rows get consecutive fresh ids |
| Importer.BuildDbIdMap | internal/artransfer/importer.go:217-220 | the k-th inserted row maps to its id, anything else to 0 |
| Importer.Relink | internal/artransfer/importer.go:239-254 | one row gets its dates, and ids for its GenIds |
| Importer.ImportArtrans | internal/artransfer/importer.go:80-302 | the tables afterwards: relinked rows under fresh ids, their mock votes, and everything else unchanged; an empty file is refused |
| ImportedThreads.EveryRowIsStored | internal/artransfer/importer.go:217-270 | if no row is skipped, the k-th row is stored under the k-th fresh id, with its data, parent and root |
| ImportedThreads.ImportedRootsAreExact | internal/artransfer/importer.go:241-252 | where no row is skipped and no blank parent names a row, the root column of every row is right if and only if its chain does not leave the file |
| ImportedThreads.ImportIsIndexed | internal/artransfer/importer.go:372-396 | for every file of which no row is skipped, all stored roots equal FindCommentRootID of the stored parents if and only if its answers are sound, as RootsAgree says |
| ImportedThreads.ParentLeftBehind | internal/artransfer/importer.go:372-396 | a file whose chain leaves it has a wrong root |
| ImportedThreads.BlankParentMisread | internal/artransfer/importer.go:372-396 | a file with closed parents, all of its rows stored, has a wrong root because a row is named "0" |
| ImportedThreads.ClosedImportIsIndexed | internal/artransfer/importer.go:372-396 | with closed parents and no blank one that names a row, each stored root equals FindCommentRootID of the stored parent on the final table, cycles and duplicate ids included |
| ImportedThreads.KeptInPlace | internal/artransfer/importer.go:92-109 | the k-th inserted row is row k if and only if nothing up to it was skipped |
| ImportedThreads.SkippedExactly | internal/artransfer/importer.go:91-109 | a row is skipped exactly if its page key, or the site name that counts for it, is white space only |
| ImportedThreads.KeptRowIsCopied | internal/artransfer/importer.go:168-236 | the k-th stored row has the content of its own row, but the dates of the k-th row of the file, none if that was skipped |
| ImportedThreads.SkippedRowTakesDates | internal/artransfer/importer.go:203-236 | after a skipped row the first comment stored has no dates |
| ImportedThreads.SkippingShiftsParents | internal/artransfer/importer.go:217-245 | a stored parent link names the row its parent became if and only if no row was skipped up to that parent |
| ImportedThreads.SkippedRowShifts | internal/artransfer/importer.go:217-245 | after a skipped row the first answer of a thread becomes an answer to itself |
| ImportedThreads.ImportKeepsForest | internal/artransfer/importer.go:80-302 | if no row is skipped, the table afterwards is valid, old comments included, if and only if the import is acyclic, its answers are sound, and on the pages of what they answer |
| ImportedThreads.ForestStays | internal/artransfer/importer.go:212-214 | rows with fresh ids change no chain and no root of the rows before |
| ImportedThreads.ImportedVotes | internal/artransfer/importer.go:256-278 | each imported comment gets exactly as many vote rows as its row counts, none for a negative count |
| ImportedThreads.MockVotesCount | internal/artransfer/importer.go:256-278 | mock votes count for their own comment only; all other counts stay |
| ImportedThreads.ImportKeepsLedger | internal/artransfer/importer.go:256-278 | the ledger is right after an import if and only if no stored counter is negative |
| ImportedThreads.NegativeCounterBreaksLedger | internal/artransfer/importer.go:269-278 | a row with a negative count leaves a counter without its votes |
| ImportedThreads.ImportKeepsFreshIds | internal/artransfer/importer.go:224-278 | no id is used that is still to be handed out |
| Exporter.ExportCache.FindPage | internal/artransfer/exporter.go:61-65 | a page key is looked up once, for the site of the first comment with it |
| Exporter.ExportCache.CommentToArtran | internal/artransfer/exporter.go:54-97 | the row of one comment, with its own user and site and the page remembered for its key |
| Exporter.ReadComments | internal/artransfer/exporter.go:16-25 | every comment of the named sites (of all, if none is named) exactly once, in any order |
| Exporter.ReadsNamedSites | internal/artransfer/exporter.go:18-25 | what is read is all comments if no site is named, and exactly those of the named sites otherwise, each once and as it is stored |
| Exporter.ExportArtrans | internal/artransfer/exporter.go:15-38 | one such row per comment read, in that order |
| RoundTrip.GenIdIsPlace | internal/artransfer/importer.go:360-366 | the GenId of an exported id is its position in the export, and 0 if it was not exported |
| RoundTrip.ClimbOfExport | internal/artransfer/importer.go:373-390 | the importer climbs the exported comments as FindCommentRootID would, had the others never existed |
| RoundTrip.WalkWithin | internal/dao/query_find.go:47-62 | in a forest that climb finds the root if the chain is exported, and leaves the export otherwise |
| RoundTrip.EveryCommentReturns | internal/artransfer/importer.go:80-302 | every exported comment is stored under its image, with its content, counters and author, the page and site of its row, answering the image of its parent (0 if that was not exported) |
| RoundTrip.RootReturns | internal/artransfer/importer.go:241-252 | its root is the image of its old root if and only if that root was not exported or all comments between were |
| RoundTrip.OwnPageAndSite | internal/artransfer/exporter.go:61-71 | if pages and sites exist, every row has its own page key and site name although pages are remembered by key |
| RoundTrip.KeyIsExported | internal/artransfer/exporter.go:61-65 | the key survives if and only if the page exists on the site of the first exported comment with it |
| RoundTrip.KeyIsLost | internal/artransfer/exporter.go:61-65 | two comments on pages of one key, where only the second page exists: its key is lost |
| RoundTrip.NoExportIsSkipped | internal/artransfer/importer.go:92-109 | if pages and sites exist and are not blank, the import skips nothing |
| RoundTrip.SitesAreWhole | internal/artransfer/exporter.go:18-25 | an export of some sites is whole threads if and only if every answer on them answers a comment on them |
| RoundTrip.BackupIsWhole | internal/artransfer/exporter.go:18-25 | an export of all sites has every comment, and is whole threads |
| RoundTrip.WholeExportBringsForest | internal/artransfer/exporter.go:15-38 | whole threads of a valid table make an acyclic import with closed parents on the right pages |
| RoundTrip.ThreadsReturn | internal/artransfer/importer.go:80-302 | export then import of whole threads is a forest isomorphism onto the new rows: content, author, page and site come back, parents and roots are images of the old, and the other database stays valid |
| RoundTrip.VotesReturn | internal/artransfer/importer.go:256-278 | a counter comes back as exactly that many vote rows, a negative one as none |
| Converter.Convert | deploy/scripts/fc_to_artrans.py:29-85 | each row is converted, keeping its parent if and only if that is in the file; no parent dangles |
| Converter.ConvertOne | deploy/scripts/fc_to_artrans.py:38-48 | a parent outside of the file becomes "0" |
| Converter.KeptParentsAreClosed | deploy/scripts/fc_to_artrans.py:38-48 | every other parent names a converted row |
| Converter.ConvertedContentIsImported | deploy/scripts/fc_to_artrans.py:38-85 | importing a converted row gives the text, author, date and page of the comment, its counts from either place, and pending exactly for refused spam |
| Converter.PageKeyIsNormal | deploy/scripts/fc_to_artrans.py:39-43 | a page key is not http, ends with a slash or has a query, is the same for http and https, and stays the same when converted again |
| Converter.ConvertedImportIsIndexed | deploy/scripts/fc_to_artrans.py:38-48 | if every converted row has a page, the import files all under the roots FindCommentRootID finds, if and only if nobody answers a row without a parent while another row is named "0"; missing ids do no harm |
| Converter.NoRowNamedZero | deploy/scripts/fc_to_artrans.py:38-48 | so it does if no row is named "0" |
| EmailVerify.NextKeepsInv | server/handler/auth_email_send.go:58-181 | every statement of an issuing or verifying request, and the clock, keep the protocol invariant |
| EmailVerify.NoABA | server/handler/auth_email_send.go:163-167 | issuance times are distinct, so a conditional write can only hit the challenge that was read |
| EmailVerify.AttemptsAreBounded | server/handler/auth_email_send.go:145-178 | under every interleaving at most five requests commit a comparison with a challenge, all different, and none after a success |
| EmailVerify.SuccessIsGenuine | server/handler/auth_email_send.go:145-178 | a success gave the code of a challenge that was issued and had neither expired nor been replaced, and is the only success on it |
| EmailVerify.WriteHitsCurrentChallenge | server/handler/auth_email_send.go:163-167 | a write that takes effect hits the current, unexpired challenge, the one the request has read |
| EmailVerify.RightCodeIsNotRefused | server/handler/auth_email_send.go:145-180 | a request that starts with the code of the current challenge, and is refused, finds it replaced, expired, exhausted or consumed by then: five retries are enough against any interleaving |
| EmailVerify.IssuanceIsPaced | server/handler/auth_email_send.go:63-104 | issuances are a minute apart, and a challenge spent without success is not replaced before it expires, even by a resend that passed its cooldown earlier |
| EmailSteps.IssuedExactlyWhenDue | server/handler/auth_email_send.go:63-104 | undisturbed, a code is issued if and only if no other email of the address got one lately, the last one is a minute old, and it is not exhausted by failures before its expiry; it expires after five minutes |
| EmailSteps.ReadFindsLiveChallenge | server/handler/auth_email_send.go:145-156 | a request finds a challenge if and only if the last one is unexpired, unspent and not used, and is refused otherwise |
| EmailSteps.WriteSpendsAttempt | server/handler/auth_email_send.go:157-178 | the write takes effect if and only if that challenge is current, unexpired and nobody spent an attempt since; it spends one for right and wrong codes, and otherwise there are four more tries |
| EmailVerify.Store.FindLive | server/handler/auth_email_send.go:146-156 | the read step of a verification |
| EmailVerify.Store.ConsumeVersion | server/handler/auth_email_send.go:157-178 | the conditional write: one row if the version read is stored, none otherwise |
| EmailVerify.Store.CheckEmailVerifyCode | server/handler/auth_email_send.go:135-181 | with any events of others between its statements, the handler performs a run of the protocol, and its answer is the one of the run |
| EmailVerify.Store.SaveChallenge | server/handler/auth_email_send.go:78-104 | creates or conditionally replaces the challenge |
| EmailVerify.Store.AuthEmailSend | server/handler/auth_email_send.go:58-107 | with any verifications in between, the handler performs a run of the protocol, and issues one challenge or none; with none, it issues one exactly when it is due |
| RateLimiter.AfterKeepsValid | internal/limiter/rate.go:30-46 | the total is the sum of the counts, both are within their limits, and at most totalLimit keys are kept |
| RateLimiter.Limiter.Allow | internal/limiter/rate.go:30-46 | admits exactly within both limits of the current window |
| RateLimiter.SlidingBound | internal/limiter/rate.go:30-46 | with a clock that does not go back, no interval of a window's length has more than 2 * total - 1 admissions; of one key at most 2 * perKey where perKey is less than total, and 2 * total - 1 otherwise |
| RateLimiter.TotalBoundIsReached | internal/limiter/rate.go:30-46 | for every configuration with a window of at least two time units some calls reach the bound on all |
| RateLimiter.KeyBoundIsReached | internal/limiter/rate.go:30-46 | and the bound on one key, whether or not the total leaves room for another |
| CaptchaLimiter.NormalModeBound | internal/limiter/base.go:48-75 | an address is admitted at most Max times for the start and for each timeout reset, and once per solved captcha |
| CaptchaLimiter.AlwaysModeBound | internal/limiter/base.go:49-51 | in always mode there are at most as many admissions as solved captchas |
| CaptchaLimiter.SolvedCaptchaAdmitsOne | internal/limiter/base.go:90-94 | in either mode a solved captcha lets the next action pass, and without a timeout that one only |
| CaptchaLimiter.FailureRevokes | internal/limiter/base.go:96-99 | a failed attempt takes that back |
| CaptchaLimiter.ExactlyMaxPass | internal/limiter/base.go:57-74 | without a timeout and a solved captcha, an address passes exactly while it has fewer than Max actions behind it |
| CaptchaLimiter.AlwaysModePassesOnceSolved | internal/limiter/base.go:48-51 | in always mode an address passes exactly if its last action, OPTIONS aside, was to solve a captcha |
| CaptchaLimiter.TimeoutStartsOver | internal/limiter/base.go:60-66 | after the timeout an address passes again and counts from the beginning |
| CaptchaLimiter.FullMeansLogged | internal/limiter/base.go:77-81 | a full count implies a recorded time, that of the last logged action |
| CaptchaLimiter.TimeoutWithinASecond | internal/limiter/lib.go:15-23 | seen from the last logged action a timeout is never late, and less than a second early |
| CaptchaLimiter.ResetNeedsInactivity | internal/limiter/lib.go:15-23 | a reset means that nothing was logged for the timeout, less the second that stored times lose |
| CaptchaLimiter.AddressesAreIndependent | internal/limiter/lib.go:25-70 | however requests of several addresses are mixed, each finds the entry it would have alone |
| CaptchaLimiter.Limiter.IsPass | internal/limiter/base.go:48-75 | the verdict, and the reset it may perform |
| CaptchaLimiter.Limiter.Log | internal/limiter/base.go:77-81 | count, time and verification after an action; other addresses unchanged |
| CaptchaLimiter.Limiter.MarkVerifyPassed | internal/limiter/base.go:90-94 | leaves exactly one more action |
| CaptchaLimiter.Limiter.MarkVerifyFailed | internal/limiter/base.go:96-99 | a failure counts as an action |
| CaptchaLimiter.Limiter.LimiterGuard | server/common/captcha.go:32-82 | the handler runs if the limiter lets it pass, and is logged then, except for OPTIONS; admins and a disabled captcha bypass it |
| PageFetch.Fetcher.Do | internal/dao/page_fetch.go:44-62 | the HTTP client requests trusted URLs only and stops with the redirect budget |
| PageFetch.Fetcher.FetchPageTitle | internal/dao/page_fetch.go:44-93 | for every network: at most ten redirects of both kinds, a chain of trusted URLs from the first one, and a title exactly from a page to stay on |
| PageFetch.FetchLimiter.Acquire | internal/dao/page_fetch.go:130-142 | succeeds iff a slot is free, the URL is idle and the second is over |
| PageFetch.FetchLimiter.Release | internal/dao/page_fetch.go:144-148 | frees the URL |
| PageFetch.GateHolds | internal/dao/page_fetch.go:119-148 | in every history at most four fetches run, no URL twice, and starts are a second apart |
| PageFetch.GateLetsIn | internal/dao/page_fetch.go:130-142 | in every history a URL that is not being fetched starts if fewer than four fetches run and the last start is a second ago |
| Keywords.OccurrenceWasThere | internal/anti_spam/keywords.go:60-63 | a word without a rune of the replacement that is in the text afterwards was there before, and is not the word replaced |
| Keywords.CensoredIsClean | internal/anti_spam/keywords.go:56-65 | with a replacement that is not empty and has no rune of any keyword, the result contains no keyword of the whole list |
| Keywords.SecondPassChangesNothing | internal/anti_spam/keywords.go:56-65 | and a second pass changes nothing |
| Keywords.ReplaceMasks | internal/anti_spam/keywords.go:60-63 | replacing a keyword by as many masks keeps the length, and masks only its occurrences |
| Keywords.CensoredMasksKeywords | internal/anti_spam/keywords.go:56-65 | with a mask that is in no keyword, only runes inside keywords of the original are masked |
| Keywords.LateKeywordStays | internal/anti_spam/keywords.go:56-65 | a keyword that is not in the original content is not replaced, even if a replacement has put it together |
| Keywords.KeywordPutTogether | internal/anti_spam/keywords.go:56-65 | a content of which one removal leaves another keyword |
| Keywords.OneKeywordIsClean | internal/anti_spam/keywords.go:60-63 | for one keyword and one mask no content leaks if and only if the keyword neither starts nor ends with the mask |
| Keywords.OneKeywordRemoved | internal/anti_spam/keywords.go:60-63 | for one keyword and no mask no content leaks if and only if all its runes are equal |
| Keywords.UnsafeMasksLeak | internal/anti_spam/keywords.go:60-63 | contents that leak with a mask that ends the keyword, and with none |
| Keywords.KeywordsChecker.LoadKeywords | internal/anti_spam/keywords.go:88-115 | loads once; a file that cannot be read fails this call and leaves the keywords before it for later ones |
| Keywords.LoadedExactly | internal/anti_spam/keywords.go:100-112 | the keywords are the trimmed entries of the files before the first one that cannot be read |
| Keywords.KeywordsChecker.Check | internal/anti_spam/keywords.go:48-86 | when it fails, what passes in each mode, and the content that replaces the comment's |
| Keywords.KeywordsChecker.Scan | internal/anti_spam/keywords.go:53-65 | the loop finds whether any keyword occurs, and the censored content |
| PageCache.KeyNameInjective | internal/dao/cache.go:12-23 | for keys without the separator, equal cache names mean equal key and site |
| PageCache.UnambiguousNames | internal/dao/cache.go:12-23 | no other key and site share a cache name if and only if the separator is in neither |
| PageCache.TwoPagesOneName | internal/dao/cache.go:12-23 | two different pages with one cache name |
| PageCache.WriteKeepsCoherent | internal/dao/query_update.go:47-56 | writing a row keeps the cache coherent if the entries under its id, old name and new name are dropped or saved |
| PageCache.RenameKeepsCoherent | server/handler/page_update.go:65-85 | dropping the old entries before a rename, and saving the new ones, keeps it coherent |
| PageCache.DeleteKeepsCoherent | internal/dao/cache.go:67-72 | so does dropping the entries of a deleted page |
| PageCache.StaleDropCoherent | internal/dao/query_update.go:60-71 | changing a row by id and dropping the entries of the page as it was keeps the cache coherent if and only if the page was not renamed, or is not cached under its present name, or did not change |
| PageCache.TitleFetchCoherent | internal/dao/service.go:74-109 | so does a fetched title: the cache stays coherent if and only if there was none, the page is gone, was not renamed, is not cached under its present name, or had that title, or, for the automatic fetch, any title |
| PageCache.RenamedWhileFetching | internal/dao/service.go:93-98 | for a titled page that was renamed and looked up meanwhile, the manual fetch leaves the cache stale and the automatic one does not |
| PageCache.PageDao.Evict | internal/cache/action.go:80-88 | any entries may disappear at any time |
| PageCache.PageDao.FindPageByID | internal/dao/query_find.go:151-158 | returns what the direct query returns |
| PageCache.PageDao.FindPage | internal/dao/query_find.go:142-149 | returns what the direct query returns |
| PageCache.PageDao.FindCreatePage | internal/dao/query_find_create.go:53-60 | returns the page of key and site, which exists afterwards and is created only if it did not |
| PageCache.PageDao.UpdatePage | internal/dao/query_update.go:47-56 | writes one row; lookups stay right |
| PageCache.PageDao.PageUpdate | server/handler/page_update.go:53-85 | refuses a missing page or a key in use, otherwise changes the row; lookups stay right |
| PageCache.PageDao.IncrementPagePV | internal/dao/query_update.go:60-71 | one view more; lookups stay right if and only if the request's copy of the page has its present name, or that is not cached |
| PageCache.PageDao.SaveTitle | internal/dao/service.go:87-108 | which title is written, and exactly when lookups stay right |
| PageCache.PageDao.SaveVoteCounts | server/handler/vote.go:261-286 | the page part of a vote keeps lookups right |
| PageCache.PageDao.DelPage | internal/dao/query_del.go:52-80 | the row is gone; lookups stay right |
| FindCreate.OneRowForAll | internal/dao/query_find_create.go:26-42 | under every interleaving at most one row is created, and everyone who gets a row gets that one |
| FindCreate.NoFailureNoEmptyHand | internal/dao/query_find_create.go:26-42 | without failures everyone gets a row |
| FindCreate.OneFlightAnswersAll | internal/dao/query_find_create.go:26-42 | callers join the flight in the air, and all who wait get the result it lands with |
| SiteUrls.PrepareSite | internal/artransfer/importer.go:305-358 | the URL list stored for the site, or that the name is missing |
| SiteUrls.MergeExtends | internal/artransfer/importer.go:325-355 | the old list is a suffix of the new one, and before it stand exactly the non-blank target URLs it lacked |
| SiteUrls.MissingSnoc | internal/artransfer/importer.go:325-345 | the URLs put before the list keep the order in which they are named, and are there as often |
| SiteUrls.SecondMergeChangesNothing | internal/artransfer/importer.go:325-355 | every target URL is in the list, and naming them again changes nothing |
| SiteUrls.MergeIsIdle | internal/artransfer/importer.go:325-355 | the list is left alone if and only if every target URL is in it |
| SiteUrls.CreatedSiteIsStable | internal/artransfer/importer.go:312-322 | importing the URLs of a created site again leaves it alone if and only if each of them stands in its list trimmed |
| SiteUrls.CreatedSiteMayGrow | internal/artransfer/importer.go:312-322 | the list of a created site can grow by an import of the same URLs |
| Text.SplitOfJoin | internal/artransfer/importer.go:347-349 | splitting undoes joining for comma-free pieces |
| Text.JoinOfSplit | internal/utils/string.go:44-51 | joining undoes splitting, for every separator |
| Text.PiecesLackSeparator | internal/utils/string.go:44-51 | no piece contains the separator |
| Text.SplitAndTrimIs | internal/utils/string.go:44-51 | the entries of a list are its pieces trimmed, those of white space only left out |
| Text.TrimSpaceCuts | internal/utils/string.go:44-51 | trimming cuts white space off both ends, and all of it |
| Text.LowerIgnoresCase | internal/dao/query_find.go:103-115 | two strings are equal in lower case if and only if they differ in the case of ASCII letters at most |
| Text.ReplaceIsJoin | internal/anti_spam/keywords.go:60-63 | replacing is splitting at the keyword and joining with the replacement |
| Text.RemoveBlankStrings | internal/utils/string.go:53-61 | keeps exactly the strings that are not blank |
| Text.RemoveBlankConcat | internal/utils/string.go:53-61 | keeps or drops each string by itself, so that order and multiplicity stay |
| Text.TrimmedPieces | internal/utils/string.go:44-51 | trimming pieces adds no comma and loses none of them |
| Text.DecimalInjective | internal/utils/string.go:92-94 | different ids are written differently |
| Text.AtoiOfIntString | internal/utils/string.go:92-94 | counters of the machine's width survive being written and read |

## Left out

- HTTP routing, decoding, responses, captcha providers, logins, mail and push senders, templates and logging: input and output around libraries that are not part of this model.
- Errors of the database itself: every statement takes effect, and a transaction is one atomic step. The merge handler would not roll back, as its statements do not use the transaction.
- Keywords.CensoredIsClean: for a list of keywords the condition on the replacement is sufficient only. Which other replacements leak depends on all keywords together: a run cut out for one of them may become the middle of another.
- Histories.StepKeepsValid: edits that take a comment out of its thread, deletions of pages that are answered from other sites, and imports that bring no forest or negative counters are no part of a run; each of them does break validity, as the theorems about them say. Nor are imports of which a row is skipped, although some of them do no harm.
- ImportedThreads.ImportKeepsForest: imports of which a row is skipped are described by SkippingShiftsParents only. The rows of pages, sites and users that an import creates or changes are not modelled; which key a page key resolves to and which account a row belongs to are functions given with the parameters.
- Importer.ImportArtrans: validation of the target URL, the URL resolver, corrected nicknames and the console are not modelled; dates stay as they are written instead of being parsed, so that a date is the same date only if its format is.
- Exporter.ExportCache.CommentToArtran: page titles, page flags, links, badges and site URLs are not in the row.
- Exporter.ExportArtrans: page titles, page flags, links, badges and site URLs are not in the rows of the model, and writing and reading JSON is the identity. Titles and flags are taken from the remembered page too, so those of another site with the same key may appear.
- Converter.Convert: dates are given as they are to be written.
- Database.Dao.CommentCreate: links of accounts, verification flags, guest tokens, bans, whether the site exists, and the jobs after creation.
- Database.Dao.CommentUpdate: the link itself, as accounts are modelled without links (the account that a link may insert is there), whether the site exists, and the mails of a comment that is approved.
- Database.Dao.UpdateVote: parsing of the choice, and the cached comment.
- PageCache.PageDao.FindPage: an empty key or site drops that condition from the query, so lookups are compared for keys and sites that are not empty, and for keys without the cache separator.
- PageCache.PageDao.DelPage: the row and its cache entries only; comments and votes of the page are in Database.Dao.DelPage. The deletion of whole sites is that of their pages.
- EmailVerify.Store.AuthEmailSend: whether another email of the same network address was issued a code lately is a parameter; the requests of one email only are modelled, which a mutex keeps apart.
- CaptchaLimiter.NormalModeBound: requests of one address are taken one after the other, as the guard does not make check and log atomic.
- PageFetch.Fetcher.FetchPageTitle: parsing of URLs and HTML, sizes and timeouts; the origin of a URL is a function of it.
- Case folding beyond ASCII, Unicode normalisation, and truncation of strings to column widths.
- The cache of answers of a comment (deletion and walks run with the cache off), the user cache, and the caching of sites.
- The merge of pages with equal keys, soft deletion and pagination.
