# Verified models of ranges, rooms, folders, queries and files

This project models the parts of the repository whose correctness is least obvious, in Dafny, and proves
what they are for. `dafny verify dfyconfig.toml` checks everything.

**Documents and content ranges** (`src/nti/contentrange`). A document is a forest of elements and text
nodes with parent and child links. `Document`, `DocumentOrder` and `Lexicographic` give boundary points
their order; `DomRange` has the classes `Position` and `Range`, whose fields are updated in place, and the
extraction of text, specified in `RangeText` by the characters that stand between two points and proved
with the steps of `RangeWalk`. `TreeWalker` walks over leaves in both directions. `ContentPointers` prints
a text point as words in context; `ContentMatches`, `ContentSearch` and `ContentRanges` find it again with
scores and a pruned search, `ContentPruning` says exactly when pruning loses candidates, and `RoundTrip`
exactly when a range survives.

**Chat rooms** (`src/nti/chatserver`). `Meeting` has the classes of messages, moderation states and
meetings; `ChatRules` is the specification that their methods meet, `ChatRuns` proves what holds in every
run of one room, `ChatSharing` who shares what was posted, and `ChatOutcomes` what a post does for each
channel and sender. `Chatserver` has the class of the server with
its rooms, `ServerRuns` what holds in every run of a server.

**Content folders** (`src/nti/contentfolder`). `FolderTree` is a store of objects that refer to each other
by identity, `ContentFolders` the operations on it, `FolderRuns` what they keep and lose. `FolderPaths`
prints and follows paths and makes folders, and `FolderSteps` says where they lead. `FolderKeys` has the flat keys of a bucket and their renaming;
`FolderTransfer`, `FolderMirror` and `FolderMoves` prove how far renaming, moving and removing in the tree
and in the bucket agree.

**Queries for user generated data** (`src/nti/appserver/ugd_query_views.py`). `UgdFilters` removes
duplicates with a memory shared by all lists and combines predicates, `UgdMimeFilter` caches answers by
class, `UgdSorting` sorts and merges, and `UgdQuery` puts them together.

**Searching users and filing sources** (`src/nti/appserver/_adapters.py`, `src/nti/cabinet/filer.py`).
`UserSearch` proves that ranges of ordered indexes are prefix searches. `FilePaths` and `Filer` file
sources on a disk under unused names, and `FilerRuns` says which keys read back.

## What the code does otherwise than its names or comments say

- Setting the start of a range past its end does not move the end; the range is only marked as collapsed.
- `compareBoundaryPoints` compares, for START_TO_END, the start of the range itself with the end of the
  other one, and for END_TO_START its own end with the other start; DOM Level 2 names them the other way
  round.
- Seeking an element by its identifier returns the child on the way to it, not the element; all that
  restoring a range needs is that the element lies at or below what is returned.
- In a moderated room a whisper that names nobody but its sender goes to everyone, and so does a reply to a
  poll while the room has no moderators, as after switching moderation on (`ChatRuns.BypassExactly` says
  exactly when; `ChatRuns.BypassExample` and `ChatRuns.PollBypassExample` are two cases).
- Anyone may add users to a room when no authorization policy is registered.
- Moving an item into a folder inside itself loses the item (`FolderRuns.MoveIntoItselfLoses`). Renaming an
  entry onto the name of another drops the other with everything under it (`FolderRuns.RenameLoses`).
- When renaming replaces an entry, the keys of what was replaced stay in the bucket
  (`FolderMirror.TransferMirrors`). When moving does, they are removed first, and with them those of the item
  itself if it was in there (`FolderMoves.MoveMirrorsIff`).
- Folders take names in any case, but the key to be renamed in the bucket is built from the old name as it was
  passed. Renaming or moving by a name in another case renames the item and not its key
  (`FolderMirror.SourceFound` and `FolderMirror.MirrorsIffNothingStale` say exactly when;
  `FolderMirror.OtherSpellingBreaksMirror` is a case).
- Renaming a key of the bucket to itself deletes everything under it (`FolderKeys.RenamingToItselfLoses`).
  Renaming it to a key around it, or to one under it, loses data if a key is renamed onto one that is listed
  later (`FolderKeys.AllArriveIff` says exactly when; `FolderKeys.RenamingOutwardsLoses` is a case).
- `rename` does not check the new name; adding deletes the entry in the way before it checks the name
  (`FolderRuns.AddReplaces`; `FolderRuns.RefusedAdditionLoses` is a case).
- The file store returns keys relative to its root and takes them relative to its default bucket, if it has
  one (`FilerRuns.SavedReadsBack`, `FilerRuns.PlainBucketLoses`). It compares paths as text, so that a
  directory next to the root whose name begins with the root's counts as inside
  (`FilerRuns.SavedOutsideIff`).
- Pruning takes 999999 for "past the last child"; with more children it may lose matches
  (`ContentPruning.AllLimitsExactIff` says exactly when; `ContentPruning.TooWideLosesMatches` is a case).

## Model

| member | source | states |
|---|---|---|
| Document.ChildIndex | src/nti/contentrange/_domrange.py:199-203 | The climb over previous siblings gives the position in the parent's child list; a node without a parent has no index |
| Document.FindCommonAncestor | src/nti/contentrange/_domrange.py:192-196 | The loop finds the deepest node that is at or above both nodes, and nothing exactly if there is none |
| Document.DeepestCommonIsUnique | src/nti/contentrange/_domrange.py:192-196 | There is only one deepest common ancestor |
| Document.CommonAncestorExists | src/nti/contentrange/_domrange.py:192-196 | Two nodes have a common ancestor exactly if they are in one tree |
| DocumentOrder.OrderIsTotal | src/nti/contentrange/_domrange.py:50-73 | Boundary points of one tree are totally ordered: equal only if identical, antisymmetric, transitive, strictly so when one step is strict |
| DocumentOrder.OrderIsAtAncestor | src/nti/contentrange/_domrange.py:50-73 | What the comparison computes at the deepest common ancestor from offsets and child indexes is lexicographic order of the paths from the root |
| DocumentOrder.OrderIsStandard | src/nti/contentrange/_domrange.py:50-73 | The comparison is the one of section 2.5 of DOM Level 2 Traversal and Range, whose four cases are written out independently; before, equal and after each hold if and only if |
| DocumentOrder.PrecedesByKey | src/nti/contentrange/_domrange.py:50-73 | One node comes before another in the pre-order walk of their tree exactly if its path key is smaller |
| DomRange.Position.Set | src/nti/contentrange/_domrange.py:35-39 | Past the end of the data of a text node the offset is that end, any other is taken as passed; the range the position belongs to is brought up to date |
| DomRange.Position.SetBefore | src/nti/contentrange/_domrange.py:43-44 | Moves to just before the node, and fails for a node without a parent |
| DomRange.Position.SetAfter | src/nti/contentrange/_domrange.py:47-48 | Moves to just after the node, and fails for a node without a parent |
| DomRange.Position.Compare | src/nti/contentrange/_domrange.py:50-73 | The loop over ancestors and child indexes answers with document order within one tree, with offsets for two unset positions, and with nothing otherwise |
| DomRange.BranchIndex | src/nti/contentrange/_domrange.py:56-70 | The children of the common ancestor through which the two nodes are reached |
| DomRange.Range.constructor | src/nti/contentrange/_domrange.py:86-92 | A new range is wired to its two ends and its derived fields agree with them |
| DomRange.Range.Update | src/nti/contentrange/_domrange.py:94-98 | With both ends in one tree, the ancestor is the deepest common one and the range is collapsed exactly if the end is not after the start |
| DomRange.Range.SetStart | src/nti/contentrange/_domrange.py:114-115 | Moves only the start, even past the end, to the offset passed or the end of the data, and keeps the derived fields right |
| DomRange.Range.SetEnd | src/nti/contentrange/_domrange.py:117-118 | Moves only the end, to the offset passed or the end of the data, and keeps the derived fields right |
| DomRange.Range.SetStartBefore | src/nti/contentrange/_domrange.py:120-121 | As setting the start, with failure for a node without a parent |
| DomRange.Range.SetStartAfter | src/nti/contentrange/_domrange.py:123-124 | As setting the start, with failure for a node without a parent |
| DomRange.Range.SetEndBefore | src/nti/contentrange/_domrange.py:126-127 | As setting the end, with failure for a node without a parent |
| DomRange.Range.SetEndAfter | src/nti/contentrange/_domrange.py:129-130 | As setting the end, with failure for a node without a parent |
| DomRange.Range.Collapse | src/nti/contentrange/_domrange.py:135-139 | Both ends meet where the chosen one was |
| DomRange.Range.PointInside | src/nti/contentrange/_domrange.py:100-102 | Accepts exactly the points from the start to the end in document order, an offset past the end of a text counting as that end |
| DomRange.InsideIsInterval | src/nti/contentrange/_domrange.py:100-102 | The accepted points form an interval of document order, empty exactly if the end comes before the start |
| DomRange.Range.CompareBoundaryPoints | src/nti/contentrange/_domrange.py:104-112 | Which end is compared with which, for each of the four constants, and no answer for any other |
| DomRange.Range.Stringify | src/nti/contentrange/_domrange.py:154-180 | The loop ends, and yields exactly the characters of the document that stand between the two ends, in document order; ends in different trees raise unless the range counts as collapsed |
| RangeText.TextIsAdditive | src/nti/contentrange/_domrange.py:154-180 | The text from a to b followed by the text from b to c is the text from a to c, wherever the cut is |
| RangeWalk.TextBackwards | src/nti/contentrange/_domrange.py:154-180 | There is no text between two points in reverse order |
| RangeWalk.TextOutOfText | src/nti/contentrange/_domrange.py:163-176 | One step of the loop: leaving a text node, what remains is the rest of its data and the text after it |
| RangeWalk.TextOutOfElement | src/nti/contentrange/_domrange.py:163-176 | One step of the loop: no text stands between the end of an element and the place after it |
| RangeWalk.TextIntoChild | src/nti/contentrange/_domrange.py:163-176 | One step of the loop: no text stands between a place in an element and the start of the child that follows |
| TreeWalker.OneStep | src/nti/contentrange/_convertrange.py:45-58 | The climb and descent lead to the nearest leaf outside the node, in the direction walked |
| TreeWalker.LeavesAreChildless | src/nti/contentrange/_convertrange.py:151-157 | The recursive list of leaves has exactly the childless nodes at or below a node |
| TreeWalker.LeavesAreSorted | src/nti/contentrange/_convertrange.py:151-157 | It lists them in document order |
| TreeWalker.StepOnLeaves | src/nti/contentrange/_convertrange.py:45-58 | From entry i of the list, a step forwards leads to entry i + 1 and a step backwards to entry i - 1, and off the ends to nothing |
| TreeWalker.StepsUndo | src/nti/contentrange/_convertrange.py:85-124 | Steps forwards and backwards between leaves undo each other |
| TreeWalker.StepsVisitLeaves | src/nti/contentrange/_convertrange.py:45-58 | k steps from leaf i lead to leaf i + k or i - k, so that iterating visits every later leaf exactly once and then stops |
| ContentPointers.IsAnchorable | src/nti/contentrange/_convertrange.py:127-148 | Whether a node is an element with an id and an allowed tag, or a text node below one |
| ContentPointers.GetAnchorableAncestor | src/nti/contentrange/_convertrange.py:160-169 | The climb finds the nearest anchorable node at or above a node |
| ContentPointers.PrimaryContext | src/nti/contentrange/_convertrange.py:195-207 | The words start after the last space before the character before the point, or at the start of the data, and end at the first space after the character at the point, or at the end of the data; their place is counted from the end of the data for a start and from its start for an end |
| ContentPointers.TakeContexts | src/nti/contentrange/_convertrange.py:212-227 | Each further context is what the node so many steps away has to say; there are as many as it takes to 15 characters, to five, or to the end of the walk |
| ContentPointers.ConvertPoint | src/nti/contentrange/_convertrange.py:191-232 | The pointer for a text point: these contexts, the place of the point in the words, and identifier and tag of the nearest anchor; or the exception when nothing above the text can be an anchor |
| ContentMatches.PlaceMatches | src/nti/contentrange/_convertrange.py:269-282 | The loop finds every occurrence of the primary context and scores it by its distance from where it is expected |
| ContentMatches.MultiplierOf | src/nti/contentrange/_convertrange.py:284-308 | The walk along the further contexts: full score exactly if each leaf so many steps away is there and has the words of its context if it is a text, or is given none if it is an element, and there are not fewer contexts than could be had; otherwise the discount of the first that fails or of the one missing |
| ContentMatches.TextMatches | src/nti/contentrange/_convertrange.py:267-312 | All candidates of a text node, one for each occurrence of the words, at the edge but not past the end of the data, scored by the distance from where it is expected and by the further contexts |
| ContentMatches.MultiplierInWords | src/nti/contentrange/_convertrange.py:287-308 | The same of the score that the round trip is about |
| ContentMatches.ScoresAre | src/nti/contentrange/_convertrange.py:275-300 | At distance g the score is f to f + g; the discount at index i is i + 1 to i + 1.5 |
| ContentMatches.CandidateAt | src/nti/contentrange/_convertrange.py:275-312 | Every candidate scores above 0 and at most 1, and 1 exactly if it stands where expected and all further contexts agree |
| ContentSearch.GetMatches | src/nti/contentrange/_convertrange.py:266-329 | The recursive search over the children, with both tests against the limit, yields what the search is specified to yield |
| ContentSearch.Prune | src/nti/contentrange/_convertrange.py:318-323 | The two tests against the limit |
| ContentSearch.PruningIsExact | src/nti/contentrange/_convertrange.py:313-328 | For nodes with at most 999999 children the pruned search finds exactly the unpruned candidates that come after the limit, in the same order |
| ContentPruning.PruningIsExactIff | src/nti/contentrange/_convertrange.py:313-328 | For any nodes and each limit, it does so if and only if no subtree skipped for the limit holds a candidate after it |
| ContentPruning.AllLimitsExactIff | src/nti/contentrange/_convertrange.py:318-323 | For any nodes, it does so for every limit if and only if no candidate lies below a child of index 999999 or more, other than at the start of the text that is the child of index 999999 itself |
| ContentPruning.TooWideLosesMatches | src/nti/contentrange/_convertrange.py:320-322 | A case in which it does not: an element with more children, the one of index 999999 a text with a match past its start, and the limit at that start |
| ContentRanges.SeekFinds | src/nti/contentrange/_convertrange.py:245-254 | Seeking succeeds exactly if there is a match at or below the node, and the result has one at or below it (it may be above the match) |
| ContentRanges.SeekFindsFirst | src/nti/contentrange/_convertrange.py:245-254 | It is the node itself if that has identifier and tag, and otherwise the first child with such an element at or below it |
| ContentRanges.LastOfSorted | src/nti/contentrange/_convertrange.py:331-333 | The last of the candidates sorted by score is the best one, the later one on a tie |
| ContentRanges.ResolvePoint | src/nti/contentrange/_convertrange.py:256-333 | A text pointer resolves to the best candidate below its anchor and beyond the limit; no anchor raises, no candidate gives nothing |
| ContentRanges.DomToContentRange | src/nti/contentrange/_convertrange.py:172-241 | The description of a range between two text points: both pointers, with their words, and identifier and tag of the nearest anchor above both |
| ContentRanges.ContentToDomRange | src/nti/contentrange/_convertrange.py:335-344 | The end is searched for only beyond the start; nothing is returned unless both are found |
| RoundTrip.ScoresOneIffPerfect | src/nti/contentrange/_convertrange.py:275-312 | A node has a candidate that scores 1 exactly if the words stand in its data where expected, every text so many leaves further has the further words and every element has none, and the pointer is not short of contexts |
| RoundTrip.SecondaryAgrees | src/nti/contentrange/_convertrange.py:212-227 | Contexts collected on the way out all agree with the same walk on the way back |
| RoundTrip.OriginalIsPerfect | src/nti/contentrange/_convertrange.py:191-232 | In an unchanged document the original point is a candidate with score 1, and every other occurrence in its node scores less |
| RoundTrip.OriginalWins | src/nti/contentrange/_convertrange.py:266-333 | Searched for in a scope around its node, the pointer resolves to the original point if and only if the point is beyond the limit and no later node of the scope matches perfectly |
| RoundTrip.PointRoundTrip | src/nti/contentrange/_convertrange.py:191-232 | The same from the anchor's identifier on, when no other element looks like the anchor |
| RoundTrip.RangeRoundTrip | src/nti/contentrange/_convertrange.py:172-344 | A range between two text points comes back unchanged if and only if its end comes after its start and no later text matches either pointer in all its words in this way |
| Meeting.Meeting.DeliverMessage | src/nti/chatserver/_meeting_post_policy.py:205-243 | Status, sharing, recipients and events of a delivery are those of the rule |
| Meeting.Meeting.DeliverStateMessage | src/nti/chatserver/_meeting_post_policy.py:245-257 | A presence state goes to all occupants and leaves no trace |
| Meeting.Meeting.PostBasicMessage | src/nti/chatserver/_meeting_post_policy.py:160-181 | Channel, size limit and sender decide between refusing, a state, and a delivery |
| ChatRuns.ToAllOutcome | src/nti/chatserver/_meeting_post_policy.py:111-121 | A delivered message counts as one to everyone exactly if all occupants get it or, when it names people, exactly if those who get it are all but the moderators |
| ChatRuns.WhisperOutcome | src/nti/chatserver/_meeting_post_policy.py:454-499 | Whom a non-moderator's whisper reaches: everyone if it names nobody; nobody, and it is held, if it names all but the moderators; those it names and its sender if they are one person or moderators; nobody otherwise |
| ChatOutcomes.ModeratorPost | src/nti/chatserver/_meeting_post_policy.py:347-383 | A moderator's message reaches exactly everyone, if it is an ordinary message, a poll, or well-formed content or a pin, of which only the known keys are kept; those whispered to who are there and its sender, or everyone if the whisper names nobody; otherwise nobody. What goes out is posted and shared, and the answer is True |
| ChatOutcomes.PlainPost | src/nti/chatserver/_meeting_post_policy.py:160-181 | Without moderation a message that fits is delivered to those it is for, and counts exactly if these are all; a presence state goes to everyone without its other keys; anything else goes nowhere |
| ChatOutcomes.HeldPost | src/nti/chatserver/_meeting_post_policy.py:501-510 | A non-moderator's message to everyone is queued as pending and shown to each moderator, if it fits, and dropped otherwise |
| ChatOutcomes.ConfidentialPost | src/nti/chatserver/_meeting_post_policy.py:454-499 | A non-moderator's whisper to one person or to moderators is shown to the moderators if somebody concerned is shadowed, and delivered if it fits |
| ChatOutcomes.RefusedPost | src/nti/chatserver/_meeting_post_policy.py:433-452 | Whatever else a non-moderator posts changes nothing, with the answer for its channel |
| ChatOutcomes.PollReply | src/nti/chatserver/_meeting_post_policy.py:557-572 | A reply to a poll reaches the moderators and its sender, or everyone if there are none, and counts exactly if these are all, or all but the moderators |
| ChatOutcomes.ApprovedPost | src/nti/chatserver/_meeting_post_policy.py:583-586 | An approved message leaves the queue and is delivered to those in the room whom it is for; an unknown id does nothing |
| Meeting.Meeting.DoShadow | src/nti/chatserver/_meeting_post_policy.py:467-476 | Moderators are shown whispers from and to shadowed users |
| Meeting.Meeting.HandleWhisper | src/nti/chatserver/_meeting_post_policy.py:486-499 | A whisper to everyone is treated as an ordinary message, an allowed one is shadowed and delivered, any other refused |
| Meeting.Meeting.HandleDefault | src/nti/chatserver/_meeting_post_policy.py:501-509 | An ordinary message of a non-moderator is held |
| Meeting.Meeting.HandleContent | src/nti/chatserver/_meeting_post_policy.py:511-523 | Only moderators post content, to everyone and with the known keys only |
| Meeting.Meeting.HandleMeta | src/nti/chatserver/_meeting_post_policy.py:525-555 | Only well-formed pins and unpins are passed on, rebuilt from the known keys |
| Meeting.Meeting.HandlePoll | src/nti/chatserver/_meeting_post_policy.py:557-573 | A moderator's poll goes to everyone, a reply to the moderators, anything else nowhere |
| Meeting.Meeting.PostModeratedMessage | src/nti/chatserver/_meeting_post_policy.py:433-452 | The rule for each channel of a moderated room |
| Meeting.Meeting.PostMessage | src/nti/chatserver/meeting.py:183-188 | Only a message delivered to everyone is counted |
| Meeting.Meeting.ApproveMessage | src/nti/chatserver/_meeting_post_policy.py:583-586 | An approved message leaves the queue and is delivered; an unknown id does nothing |
| Meeting.Meeting.AddModerator | src/nti/chatserver/_meeting_post_policy.py:575-578 | A new moderator, announced to everyone in the room |
| Meeting.Meeting.ShadowUser | src/nti/chatserver/_meeting_post_policy.py:402-403 | A new shadowed user |
| Meeting.Meeting.SwitchModeration | src/nti/chatserver/meeting.py:149-155 | Switching on starts with an empty queue, switching off forgets the queue, and either is announced to everyone in the room; setting it to what it is does nothing |
| Meeting.Meeting.AddOccupantName | src/nti/chatserver/meeting.py:196-216 | The name becomes an occupant, now and in history; a newcomer and the others are told, and a second time nobody is |
| Meeting.Meeting.AddOccupantNames | src/nti/chatserver/meeting.py:218-233 | All names become occupants; each newcomer is told once, and so is everyone who was there before |
| Meeting.Meeting.DelOccupantName | src/nti/chatserver/meeting.py:235-240 | The name leaves the occupants and stays in history; who leaves and who stays are told |
| Meeting.ModerationState.HoldMessage | src/nti/chatserver/_meeting_post_policy.py:322-329 | The message is queued as pending under its id |
| Meeting.ModerationState.ApproveMessage | src/nti/chatserver/_meeting_post_policy.py:331-344 | The message is taken off the queue, if it is there |
| ChatRuns.NonModeratorPost | src/nti/chatserver/_meeting_post_policy.py:433-573 | For every channel: exactly whom a non-moderator's message reaches without approval |
| ChatRuns.PostModeration | src/nti/chatserver/_meeting_post_policy.py:433-573 | A post changes the state of moderation only by queueing the message |
| ChatRuns.PostReceipts | src/nti/chatserver/_meeting_post_policy.py:96-103 | A post sends its message at most once to each current occupant and to nobody else |
| ChatRuns.BypassExactly | src/nti/chatserver/_meeting_post_policy.py:454-573 | A non-moderator's message in a moderated room is seen by others than its sender, moderators and one whispered-to person if and only if it is a whisper that names nobody or a reply to a poll while there are no moderators, within the size limit, in a room where somebody else is |
| ChatRuns.BypassExample | src/nti/chatserver/_meeting_post_policy.py:486-499 | A room and a whisper that names nobody: everyone in the moderated room receives it |
| ChatRuns.PollBypassExample | src/nti/chatserver/_meeting_post_policy.py:557-573 | A room just switched to moderation and a reply to a poll: everyone in the room receives it |
| ChatRuns.RunKeepsInv | src/nti/chatserver/_meeting_post_policy.py:277-344 | Every run of posts, approvals, moderators, shadowing, switching, arrivals and departures keeps the books of the room |
| ChatRuns.ModerationHolds | src/nti/chatserver/_meeting_post_policy.py:322-344 | In every run: before its approval a message that a non-moderator posted to a moderated room has reached only people who may see it, unless it whispers to nobody or replies to a poll while there are no moderators |
| ChatRuns.HeldMessagesAreAccountedFor | src/nti/chatserver/_meeting_post_policy.py:322-344 | In every run: nobody gets a message twice, none that was held reaches anybody before approval, and held = pending + approved + dropped |
| ChatSharing.PostIsShared | src/nti/chatserver/_meeting_post_policy.py:205-243 | A message that reaches somebody by being posted, and is no presence state, ends up posted and is shared with exactly those it reached, its sender and the extra transcript owners, who are also those notified |
| ChatSharing.ApprovalIsShared | src/nti/chatserver/_meeting_post_policy.py:583-586 | A held message, once approved, is posted to exactly those it is for who are in the room at that time, and shared in the same way |
| ChatSharing.PostedMessagesAreShared | src/nti/chatserver/_meeting_post_policy.py:205-243 | In every run: whoever got a message, other than a presence state, got it from a post or an approval that reached occupants only and left it posted and shared in that way |
| ChatSharing.ApprovedMessagesAreShared | src/nti/chatserver/_meeting_post_policy.py:331-344 | In every run: every approved message was posted and held before, and its approval posted and shared it in that way |
| ChatSharing.OwnersShareWhatFollows | src/nti/chatserver/meeting.py:190-194 | In every run: somebody added as a transcript owner shares and is notified of every message, other than a presence state, that reaches anybody from then on, in the room or not, while the room is not made a reply to something else |
| Meeting.Meeting.AddAdditionalTranscriptUsername | src/nti/chatserver/meeting.py:190-194 | The name joins the transcript owners |
| Meeting.Meeting.ReplyTo | src/nti/chatserver/meeting.py:269-278 | Those with whom the thing replied to is shared become transcript owners, in place of the others if the room was a reply to something else |
| ChatRuns.CountIsBroadcasts | src/nti/chatserver/meeting.py:183-188 | In a room that is never moderated the message count is the number of default or whisper messages delivered to everyone |
| Chatserver.Chatserver.CreateRoom | src/nti/chatserver/chatserver.py:265-368 | A room exists afterwards exactly if somebody invited is online and the request is allowed, with those online as occupants; it is the one returned, and no other room changes |
| Chatserver.Chatserver.EnterExistingMeeting | src/nti/chatserver/chatserver.py:370-392 | Entering needs an existing active room and, if a policy is registered, one that permits the user; the user is then among the occupants, and otherwise nothing changes |
| Chatserver.Chatserver.AddOccupantToExistingMeeting | src/nti/chatserver/chatserver.py:394-419 | Anyone the policy permits, or anyone at all if none is registered, adds a user who is online, and never one who has been in the room before |
| Chatserver.Chatserver.ExitMeeting | src/nti/chatserver/chatserver.py:424-461 | The user is not among the occupants afterwards, and all others are; the room is gone exactly if nobody else was in it |
| Chatserver.Chatserver.PostMessageToRoom | src/nti/chatserver/chatserver.py:199-216 | Messages to unknown rooms, from outside the room, or to nobody but the sender are dropped |
| Chatserver.Chatserver.Resolve | src/nti/chatserver/chatserver.py:321-343 | The loop over the invited keeps those online, with all their sessions |
| ServerRuns.RoomsAreLive | src/nti/chatserver/chatserver.py:265-461 | Over every run each room in existence is active and not empty, and its occupants are in its history |
| ServerRuns.RemovedRoomsStayRemoved | src/nti/chatserver/chatserver.py:424-461 | Over every run a removed room is never entered, extended or posted to again |
| ServerRuns.HistoryNeverShrinks | src/nti/chatserver/meeting.py:196-240 | Over every run the history of a room never shrinks |
| ServerRuns.NobodyIsPutBack | src/nti/chatserver/chatserver.py:394-419 | Over every run a user who left a room is not in it again, whoever adds them, unless they enter it themselves |
| ServerRuns.WhoLeavesIsOut | src/nti/chatserver/chatserver.py:424-461 | Over every run, whoever leaves a room is not in it until they enter it again, and nothing posted or approved there reaches them |
| ContentFolders.FolderStore.Save | src/nti/contentfolder/model.py:92-103 | Checks the name, links the object under its folded key, and sets its name and parent |
| ContentFolders.FolderStore.Add | src/nti/contentfolder/model.py:108-116 | Deletes whatever has the name first, even if the name then turns out invalid |
| ContentFolders.FolderStore.Remove | src/nti/contentfolder/model.py:128-135 | Deletes the entry, or answers that there is none |
| ContentFolders.FolderStore.Rename | src/nti/contentfolder/model.py:137-154 | Takes the entry out, names it anew without checking the name, and puts it back |
| ContentFolders.FolderStore.Move | src/nti/contentfolder/model.py:156-182 | Deletes the entry in the way, takes the item out, and saves it in the target |
| ContentFolders.FolderStore.Copy | src/nti/contentfolder/model.py:184-212 | A new file with the same data, added to the target; copying onto itself is declined, folders raise |
| FolderTree.OnlyOneWay | src/nti/contentfolder/model.py:92-154 | It is a tree: one object, one list of keys from the root |
| ContentFolders.AddKeepsTree | src/nti/contentfolder/model.py:108-116 | Adding an object that is not linked elsewhere keeps names, parents and links in agreement |
| ContentFolders.RenameKeepsTree | src/nti/contentfolder/model.py:137-154 | So does renaming, also onto a key that is used |
| ContentFolders.MoveKeepsTree | src/nti/contentfolder/model.py:156-182 | So does moving |
| ContentFolders.CopyKeepsTree | src/nti/contentfolder/model.py:184-212 | So does copying |
| ContentFolders.CopyPlaces | src/nti/contentfolder/model.py:184-212 | The copy is a new file of the given name in the target, with the data of the original, in place of what had the name; nothing else changes; and when nothing is copied |
| FolderRuns.RunKeepsTree | src/nti/contentfolder/model.py:92-212 | Over every run of these operations each child's parent and name match the folder and key that hold it |
| FolderRuns.RemoveLoses | src/nti/contentfolder/model.py:128-135 | Removing an entry loses exactly what is in it |
| FolderRuns.AddReplaces | src/nti/contentfolder/model.py:108-116 | Adding loses exactly the entry it replaces and attaches exactly what is below the object; an object whose name is no valid id is refused, and the entry in the way is lost all the same; a refusal changes nothing exactly if the name is empty or not used |
| FolderRuns.RefusedAdditionLoses | src/nti/contentfolder/model.py:108-116 | A case of that: a file whose name has a slash |
| FolderRuns.MoveLosesReplaced | src/nti/contentfolder/model.py:156-182 | Moving into a folder outside the item loses exactly the entry replaced in the target, and keeps all that is below the item |
| FolderRuns.MoveIntoItselfLoses | src/nti/contentfolder/model.py:156-182 | Moving an item into a folder that lies in it loses exactly the item and all below it |
| FolderRuns.MovedItemSurvives | src/nti/contentfolder/model.py:156-182 | The moved item is still attached if and only if the target does not lie in it |
| FolderRuns.RenameLoses | src/nti/contentfolder/model.py:137-154 | Renaming loses exactly what was under the new name, if that is another entry, and attaches nothing |
| FolderPaths.ComputePath | src/nti/contentfolder/utils.py:110-121 | The climb collects the names from the root |
| FolderPaths.FindRoot | src/nti/contentfolder/utils.py:40-42 | The climb ends at the root |
| FolderPaths.Traverse | src/nti/contentfolder/utils.py:39-71 | The loop over segments follows names, stays for '.', climbs for '..', and tells files and missing names apart |
| FolderPaths.SplitUndoesJoin | src/nti/contentfolder/utils.py:49-51 | Names without '/' are recovered from their joined path |
| FolderPaths.TraverseUndoesComputePath | src/nti/contentfolder/utils.py:39-121 | From anywhere, following the path of an object leads to the object, when the names on the way are valid |
| FolderSteps.ResolveByKeys | src/nti/contentfolder/utils.py:53-71 | A path leads where the keys from the root lead that are left when .. takes the last one off and a name puts one on, if something is there after each segment; otherwise it fails at the first after which nothing is, and whether as no directory or no such file |
| FolderSteps.UpAndDown | src/nti/contentfolder/utils.py:39-71 | Some .. and then names lead as many folders up, but not above the root, and down by the names, and find something exactly if something is there |
| FolderPaths.MakeDirectories | src/nti/contentfolder/utils.py:74-107 | The loop makes the missing folders and enters those that are there |
| FolderPaths.MkdirsThenTraverse | src/nti/contentfolder/utils.py:74-107 | For segments that are safe as they are, the folder returned is the one following the path finds, and making it again creates nothing |
| FolderSteps.MakeByKeys | src/nti/contentfolder/utils.py:88-107 | Making folders ends where these keys lead in the new store, in which everything there was still is; it fails only at a file or a name that is no valid id |
| FolderSteps.MadeUpAndDown | src/nti/contentfolder/utils.py:74-107 | The same for some .. and then names |
| FolderSteps.PathForms | src/nti/contentfolder/utils.py:41-51 | A path that begins with a slash is followed from the root, a slash at its end is ignored, and no path is the root |
| FolderPaths.MakeKeepsTree | src/nti/contentfolder/utils.py:74-107 | Making folders keeps the tree, also if it fails half way |
| FolderKeys.GetKey | src/nti/contentfolder/boto_s3.py:25-42 | The climb yields the names from the root joined by '/', closed by '/' for containers |
| FolderKeys.RenameKey | src/nti/contentfolder/boto_s3.py:161-176 | Without the old key nothing changes. Of the keys under a folder key all data arrive at their new keys if and only if no key is renamed onto itself or onto one listed later; all other keys stay, with their data unless something is renamed onto them. Unless one of the two keys is a prefix of the other, exactly the keys under the old one are moved |
| FolderKeys.AllArriveIff | src/nti/contentfolder/boto_s3.py:167-171 | The same of the loop by itself, for any two keys and any order of the listing |
| FolderKeys.RenamingToItselfLoses | src/nti/contentfolder/boto_s3.py:167-171 | Renaming a folder key to itself loses everything under it and nothing else |
| FolderKeys.RenamingOutwardsLoses | src/nti/contentfolder/boto_s3.py:161-171 | A case in which they do not: renaming "a/x/" to "a/" moves "a/x/x/z" onto "a/x/z", whose data are lost |
| FolderKeys.KeyPrefix | src/nti/contentfolder/boto_s3.py:25-42 | A folder's key is a prefix of another key only if the other object lies in the folder |
| FolderKeys.KeysDiffer | src/nti/contentfolder/boto_s3.py:25-42 | Objects with different names on their ways, or a folder and a file, have different keys |
| FolderTransfer.Forward | src/nti/contentfolder/model.py:137-182 | After renaming or moving an entry, keys under it lead, with the new keys in place of the old, to the same objects, and all other keys that are not replaced to theirs, by the same names |
| FolderTransfer.ForwardUnder | src/nti/contentfolder/model.py:137-182 | Of the names on the way to what is under the item, only those of the item are new |
| FolderTransfer.Backward | src/nti/contentfolder/model.py:137-182 | Whatever keys lead to afterwards, keys led to before that are shifted to these and were not replaced |
| FolderTransfer.RenamingBackRestores | src/nti/contentfolder/model.py:137-154 | Renaming onto an unused key, and back, restores the store |
| FolderMirror.KeysAreUnique | src/nti/contentfolder/boto_s3.py:25-42 | No two attached objects share a key |
| FolderMirror.KeyFollows | src/nti/contentfolder/boto_s3.py:161-176 | The key of an object that is not replaced moves with the entry exactly as the bucket's key does |
| FolderMirror.LastOfItem | src/nti/contentfolder/boto_s3.py:161-176 | Neither key of the item is a prefix of the other, unless a folder is moved out of the folder that it replaces |
| FolderMirror.SourceFound | src/nti/app/contentfolder/subscribers.py:75-89 | The bucket has the key that is built from the old name as the caller spelled it if and only if that is how the item is named; then it is the item's key, and the new key is the one that the item has afterwards |
| FolderMirror.TransferMirrors | src/nti/app/contentfolder/subscribers.py:75-125 | If the bucket had exactly the keys of the tree's objects with their data, then after renaming or moving an entry by its own name, and its key with it, it has exactly the keys of the objects, with their data, and those of the objects replaced; by a name spelled otherwise it does not change, and has a key of no object |
| FolderMirror.LiveIffOneComes | src/nti/contentfolder/boto_s3.py:161-176 | The key of an object replaced is afterwards that of another object if and only if some key is renamed onto it |
| FolderMirror.MirrorsIffNothingStale | src/nti/app/contentfolder/subscribers.py:75-125 | So it still mirrors the tree if and only if the old name was spelled as the item's and some key is renamed onto each key of an object replaced |
| FolderMirror.RenamingKeepsApart | src/nti/app/contentfolder/subscribers.py:75-89 | Renaming within one folder never mixes the two keys: neither is a prefix of the other if the item is a folder, and they differ |
| FolderMoves.KeyUnderIff | src/nti/contentfolder/boto_s3.py:25-42 | An object's key goes along with another's when that is removed or renamed if and only if the object is the other or lies in it |
| FolderMoves.DropKeepsMirror | src/nti/contentfolder/boto_s3.py:146-159 | Removing an entry and its key: the bucket still has exactly the keys of the tree's objects, with their data |
| FolderMoves.MoveMirrorsIff | src/nti/app/contentfolder/subscribers.py:59-126 | Moving an entry onto a used name, with the key of what is there removed and then the item's renamed: the bucket has exactly the keys of the tree's objects if and only if the folder moved out of does not lie in what is replaced and the old name was spelled as the item's |
| FolderMirror.TransferKeepsMirror | src/nti/app/contentfolder/subscribers.py:75-125 | In particular, if the name was not used before or only its case changes: the bucket has exactly the keys of the tree's objects, with all data, if and only if the old name was spelled as the item's |
| FolderMirror.OtherSpellingBreaksMirror | src/nti/contentfolder/model.py:257-261 | A case in which it was not: the file "Notes" renamed by the name "notes" |
| UgdFilters.Memory.Admits | src/nti/appserver/ugd_query_views.py:188-216 | Rejects nothing, numbers and objects met before, and remembers the others even if they are filtered out later |
| UgdFilters.Memory.Filtered | src/nti/appserver/ugd_query_views.py:216-229 | Drawing a list through the shared filter |
| UgdFilters.KeptConcat | src/nti/appserver/ugd_query_views.py:192-229 | Filtering lists one after the other with the shared memory is filtering their concatenation |
| UgdFilters.KeptCounts | src/nti/appserver/ugd_query_views.py:192-229 | What is kept is each object of the list that was not met before and passes, once |
| UgdFilters.CompletePredicate | src/nti/appserver/ugd_query_views.py:710-762 | The predicate built step by step accepts exactly what satisfies all, or some, of the type filters, as requested, and all the filters that must hold |
| UgdMimeFilter.MimeFilter.Accepts | src/nti/appserver/ugd_query_views.py:431-454 | The answer is that for the first object of the same class |
| UgdMimeFilter.MimeFilter.Answers | src/nti/appserver/ugd_query_views.py:418-454 | So it is for every object of a run |
| UgdMimeFilter.CacheIsExactIff | src/nti/appserver/ugd_query_views.py:418-454 | The cache changes no answer if and only if objects of one class are always acceptable together |
| UgdSorting.SortedSorts | src/nti/appserver/ugd_query_views.py:1150-1154 | Sorting by key orders, keeps the entries, and keeps entries of one key in order |
| UgdSorting.Merge | src/nti/appserver/ugd_query_views.py:1169-1170 | Merging takes one of the heads with the least key again and again |
| UgdSorting.MergeSorts | src/nti/appserver/ugd_query_views.py:1169-1170 | Merging sorted lists gives a sorted list, however ties are broken |
| UgdSorting.MergePermutes | src/nti/appserver/ugd_query_views.py:1169-1170 | Merging loses and adds nothing |
| UgdSorting.SortedKeysAreUnique | src/nti/appserver/ugd_query_views.py:1126-1174 | Two sorted arrangements of the same entries have the same keys |
| UgdQuery.SurvivorsCount | src/nti/appserver/ugd_query_views.py:192-229 | With filtering, each object of the lists that passes predicate and security is there once, and nothing else |
| UgdQuery.SortFilterMerge | src/nti/appserver/ugd_query_views.py:1095-1174 | Whether sorted at once or list by list: the result is in order of its keys, is a permutation of what should survive, each object once, and has the keys of sorting everything at once; the filtered count is at most the total |
| UserSearch.InRangeIffPrefix | src/nti/appserver/_adapters.py:296-302 | A key is in the range of a term if and only if the term is a prefix of it |
| UserSearch.Items | src/nti/appserver/_adapters.py:396-411 | Scanning an ordered index from the lower bound up to the upper one yields exactly the entries in the range |
| UserSearch.MatchUsernames | src/nti/appserver/_adapters.py:324-375 | The ids added are those of the users, if they can be resolved, whose names start with the term |
| UserSearch.MatchNames | src/nti/appserver/_adapters.py:413-440 | The ids added are exactly those that full scans of the indexes for keys starting with the term would find |
| UserSearch.QueryIds | src/nti/appserver/_adapters.py:486-493 | The union over user names and name indexes is that of the full scans; it raises exactly for an empty term or one that ends in the largest character |
| Filer.FirstFree | src/nti/cabinet/filer.py:83-95 | There is an unused name: different counts give different names and only finitely many are taken |
| Filer.CandidatesDiffer | src/nti/cabinet/filer.py:88-92 | Different counts give different names |
| Filer.DirectoryFiler.UniqueFileName | src/nti/cabinet/filer.py:83-95 | The loop stops at the least unused count, and the file is the name with time and count before its extension, which starts at its last dot if something other than a dot comes before, or at its end |
| Filer.DecimalReads | src/nti/cabinet/filer.py:88-91 | The count is written in digits that stand for it |
| Filer.DirectoryFiler.Save | src/nti/cabinet/filer.py:97-121 | Where a source is filed, when it is refused, and what the disk is afterwards |
| FilerRuns.FiledUnder | src/nti/cabinet/filer.py:97-121 | A source is filed in the directory that the bucket leads to, under what follows the last slash of the key, with time and count unless it may overwrite; nothing else on the disk changes but that the directory is made |
| FilerRuns.FiledIff | src/nti/cabinet/filer.py:105-118 | When filing succeeds |
| FilerRuns.GetFollowsKey | src/nti/cabinet/filer.py:123-155 | Getting a key, absolute or relative, finds what is at the place it leads to, followed from the bucket and the root, if something is there and the path passes the textual test for what lies under the root |
| Filer.DirectoryFiler.Contains | src/nti/cabinet/filer.py:172-183 | It answers yes exactly if getting finds something |
| FilePaths.RelativeLeadsThere | src/nti/cabinet/filer.py:118-120 | Following a relative path from its base leads to the path it was made for |
| FilerRuns.RunKeepsFiles | src/nti/cabinet/filer.py:97-121 | Over every run of saves that do not overwrite no existing file changes |
| FilerRuns.SavedOutsideIff | src/nti/cabinet/filer.py:103-110 | A file lands outside the root if and only if the text of the chosen directory goes on from that of the root in the middle of a name |
| FilerRuns.SavedReadsBack | src/nti/cabinet/filer.py:97-155 | Over every such run a saved source stays, and is read back under the key returned if and only if the key is absolute, or there is no default bucket, or climbing from the bucket as far as the key climbs from the root gets to the same directory |
| FilerRuns.SavedUnderRootReadsBack | src/nti/cabinet/filer.py:118-131 | For a file under the root the returned key reads back, over every further run, if and only if it is absolute or there is no default bucket other than the root |
| FilerRuns.PlainBucketLoses | src/nti/cabinet/filer.py:123-131 | With a default bucket that is a plain name, relative keys never read back |

## Left out

- The regular expressions for the first word of a node: any function that yields a substring of the data.
- The square root in the score: any factor of at least 1 for each length; scores are exact reals.
- Element pointers in `contentToDomRange` and ranges whose ends are not in text nodes when they are converted.
- Comparing positions in different trees, and derived fields of a range while one end is unset: no answer, nothing promised.
- Documents are fixed while a range exists; how they are parsed is not part of this model.
- Storing messages and transcripts, container ids, hosted meeting containers and meetings in containers.
- Sessions, presence, permissions and room policies: parameters of the operations, chosen anew at each step.
- The order of recipients: recipients are a multiset, sharing is a set.
- `_Meeting.is_moderated_by`, which reads an attribute that the class never sets.
- Folder objects are values in a store under an identity, so that two objects may not share a container; container events, sizes and modification times are not modelled.
- Case folding of container keys and `safe_filename`: arbitrary functions. Where it matters how the old name is spelled, it is taken to be a valid id, as every name is that folds to the key of a valid one.
- `move_key`, what happens to keys when a transaction fails, access rights and listing pages of the bucket; every folder has a key of its own.
- Batching, timestamps and links of query results, the branch switched off by `_USE_SMALLEST`, the special case of the root, and the last modification time of a query.
- UgdSorting.Merge: breaks ties between equal keys in any way, because the code compares the objects themselves.
- Predicates of a query are functions of the entry; that the caching one is such a function is what `UgdMimeFilter.CacheIsExactIff` decides.
- Resolving the ids of a user search to objects of one kind.
- Concurrency between looking for an unused name and writing the file.
- Filer.DirectoryFiler.constructor: takes the root as a normalized absolute path below '/', since relative roots depend on the current directory.
- Parents of a directory that is made, links, and types of content on the disk; `remove`, `list` and `is_bucket`.
- Views, authentication, mail, feeds, sockets and other plumbing.
