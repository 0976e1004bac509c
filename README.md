# moaclass-back: the meeting-participation engine in Dafny

This project models the core of the moaclass back end, a NestJS and Prisma service in which
users host meetings and other users apply to join them. The core is a state machine over three
stores:

- **meetings**, with a capacity (`maxParticipants`), an occupancy counter
  (`currentParticipants`), a host, a date and a soft-delete flag;
- **participations**, one per (user, meeting), each PENDING, ACCEPTED or REJECTED;
- **notifications**, each with a receiver, a sender, a meeting, a type and a read flag.

`ParticipationsService` moves a participation through six transactions:

- join request;
- approve one, reject one, approve all;
- cancel an approval, cancel a rejection.

Each transaction has an exact notification side effect. `MeetingsService` creates meetings (the
host holds the first seat), edits them under a capacity guard, and soft-deletes them with a
notice to every member. Around this core sit several read-side pieces:

- the two paged listings `findAll` and `getMyMeetings`, with the `PageMetaDto` page count;
- the applicant and participant lists;
- the chat room membership test, the room list and the message store;
- in `UsersService`, sign-up with its availability checks, and the profile update with its
  nickname check and interest-link reconciliation.

How the model is laid out:

- `Engine` (engine.dfy) states each transaction as a pure function from the three tables to
  either an error or the new tables.
- `ParticipationsService` and `MeetingsService` write the same transactions as methods. Each
  method works on a `Store.Database` object whose fields the source updates step by step.
  Each method is proved to commit exactly the `Engine` transition, or to raise its error with
  nothing written (`Store.Committed`).
- The invariant `Engine.Valid` is proved preserved by every transition:
  - every row names a meeting and (user, meeting) is unique;
  - every occupancy counter equals the meeting's ACCEPTED rows and stays within capacity;
  - the notifications of each applicant match the state of their row.
- Round trips are proved: approve then cancel, and reject then cancel.
- Two concrete counterexamples show the two places where the service's guards do not protect
  the counter.
- `UsersService` is a class, `Users.UserDb`, holding the user map and the interest-link table.
  The reconciliation it performs is specified by the pure function `InterestLinks.Reconcile`.

Identifiers of meetings and participations are positions in their tables, because rows are
never removed. Times are integers, and the current time is a parameter `now`.

## Model

| member | source | states |
|---|---|---|
| Engine.CreateParticipation | src/modules/meetings/participations.service.ts:16-77 | the join guards fail in source order: NotFound, Gone, BadRequest past date, BadRequest host, BadRequest full, Conflict already applied; the request succeeds iff every guard passes |
| Engine.ApproveOne | src/modules/meetings/participations.service.ts:135-200 | guards in order: NotFound, Forbidden (not the host), BadRequest full, BadRequest target missing or not PENDING; success iff all pass |
| Engine.RejectOne | src/modules/meetings/participations.service.ts:202-256 | guards NotFound, Forbidden, BadRequest not PENDING, with no capacity check; success iff all pass, and it leaves the meetings (the counter) untouched |
| Engine.ApproveAll | src/modules/meetings/participations.service.ts:258-324 | guards in order: NotFound, Forbidden, then BadRequest when the PENDING rows outnumber the free seats; with no PENDING row the tables come back unchanged; success iff the caller hosts the meeting and the PENDING rows are none or fit the free seats |
| Engine.CancelApproval | src/modules/meetings/participations.service.ts:326-393 | guards NotFound, Forbidden, BadRequest target missing or not ACCEPTED; success iff all pass |
| Engine.CancelRejection | src/modules/meetings/participations.service.ts:395-445 | guards NotFound, Forbidden, BadRequest not REJECTED; success iff all pass; meetings untouched |
| Engine.UpdateMyMeeting | src/modules/meetings/meetings.service.ts:116-199 | guards NotFound (missing or deleted), Forbidden, BadRequest for a non-zero capacity below the occupancy; on success only the edited meeting changes, keeping its host and occupancy |
| Engine.SoftDelete | src/modules/meetings/meetings.service.ts:421-478 | guards NotFound, Gone, Forbidden, BadRequest past date; on success the meeting is flagged deleted, participations unchanged, old notifications kept as a prefix |
| Engine.DeletionNotices | src/modules/meetings/meetings.service.ts:458-465 | every notice is an unread MEETING_DELETED about the meeting, sent by the host to someone other than the host |
| ParticipationsService.CreateParticipation | src/modules/meetings/participations.service.ts:16-77 | the method's reads, checks and two writes commit exactly `Engine.CreateParticipation`, or fail with its error and write nothing |
| ParticipationsService.ApproveOne | src/modules/meetings/participations.service.ts:135-200 | the transaction's steps commit exactly `Engine.ApproveOne` or fail with nothing written |
| ParticipationsService.RejectOne | src/modules/meetings/participations.service.ts:202-256 | the transaction's steps commit exactly `Engine.RejectOne` or fail with nothing written |
| ParticipationsService.ApproveAll | src/modules/meetings/participations.service.ts:258-324 | the bulk update, the counter increment and the per-requester notification loop together commit exactly `Engine.ApproveAll` |
| ParticipationsService.NotifyAccepted | src/modules/meetings/participations.service.ts:300-321 | the loop over the PENDING rows leaves the notification table equal to `Engine.AcceptEach` over their users, in row order, and touches no other table |
| ParticipationsService.CancelApproval | src/modules/meetings/participations.service.ts:326-393 | the transaction's five steps commit exactly `Engine.CancelApproval` or fail with nothing written |
| ParticipationsService.CancelRejection | src/modules/meetings/participations.service.ts:395-445 | the transaction's steps commit exactly `Engine.CancelRejection` or fail with nothing written |
| ParticipationsService.OthersRows | src/modules/meetings/participations.service.ts:99-100 | the rows listed are exactly the meeting's rows whose user is not the host, ascending |
| ParticipationsService.FindApplicants | src/modules/meetings/participations.service.ts:79-133 | NotFound for a missing meeting, Gone for a deleted one, Forbidden for a non-host caller; succeeds iff none applies |
| ParticipationsService.FindApplicantsRows | src/modules/meetings/participations.service.ts:99-132 | every applicant listed is a non-host row of this meeting, shown with its own user and status, whatever the status |
| ParticipationsService.FindApplicantsOnce | src/modules/meetings/participations.service.ts:99-119 | every non-host row of the meeting is listed exactly once |
| ParticipationsService.FindApplicantsNewestFirst | src/modules/meetings/participations.service.ts:118 | the list is in descending `createdAt` order |
| ParticipationsService.AcceptedOthers | src/modules/meetings/participations.service.ts:487-488 | exactly the ACCEPTED members other than the host; its length is the meeting's ACCEPTED count minus the host's |
| ParticipationsService.GetParticipants | src/modules/meetings/participations.service.ts:447-498 | NotFound iff the meeting is missing; the host comes first flagged as host, then every ACCEPTED member other than the host and nobody else, one entry per such row |
| ParticipationsService.GetParticipantsMatchesCounter | src/modules/meetings/participations.service.ts:459-497 | in a consistent state whose host holds an ACCEPTED row, the list is exactly `currentParticipants` long |
| MeetingsService.Create | src/modules/meetings/meetings.service.ts:87-113 | the two inserts commit exactly `Engine.Create`, and the returned meeting is the one stored under the next id |
| MeetingsService.UpdateMyMeeting | src/modules/meetings/meetings.service.ts:116-199 | the checks and the field update commit exactly `Engine.UpdateMyMeeting` or fail with nothing written |
| MeetingsService.SoftDelete | src/modules/meetings/meetings.service.ts:421-478 | the checks, the flag update and the conditional `createMany` commit exactly `Engine.SoftDelete` |
| MeetingsService.Select | src/modules/meetings/meetings.service.ts:238-244 | the ids a `where` keeps, each once, ascending, as many as `count` reports |
| MeetingsService.Ordered | src/modules/meetings/meetings.service.ts:238-248 | exactly the kept ids, sorted by the `orderBy` key, as many as `count` reports |
| MeetingsService.OrderedOnce | src/modules/meetings/meetings.service.ts:238-248 | each kept id occurs exactly once in the ordering, the others never |
| MeetingsService.Paged | src/modules/meetings/meetings.service.ts:237-269 | the page is the window from `skip` of at most `limit` rows of the ordering, each mapped to its item, and the meta is `PageMetaDto(total, page, limit)` |
| MeetingsService.FindAllPage | src/modules/meetings/meetings.service.ts:201-269 | `totalCount` counts every matching meeting; with skip `(page - 1) * limit` (defaults 1 and 10) the page holds min(limit, total - skip) items, none past the end |
| MeetingsService.FindAllMatches | src/modules/meetings/meetings.service.ts:210-267 | every item is a meeting that is not deleted, not past (unless `finishedFilter`) and of the filtered interest, shown with its own fields |
| MeetingsService.FindAllSorted | src/modules/meetings/meetings.service.ts:223-235 | items follow the sort option: UPDATE by `updatedAt` descending, DEADLINE by date ascending, NEW and the default by `createdAt` descending |
| MeetingsService.FindAllOnce | src/modules/meetings/meetings.service.ts:210-248 | across all pages each matching meeting is listed exactly once and no other meeting is |
| MeetingsService.GetMyMeetingsMatches | src/modules/meetings/meetings.service.ts:339-411 | every item is a live meeting meeting the view and status conditions; `isHost` iff the caller hosts it, `isCompleted` iff its date has passed, `status` is the caller's status |
| MeetingsService.GetMyMeetingsSorted | src/modules/meetings/meetings.service.ts:367-384 | `totalCount` counts every meeting meeting the conditions; items run from the latest meeting date to the earliest |
| MeetingsService.GetMyMeetingsPage | src/modules/meetings/meetings.service.ts:334-385 | `totalCount` counts every meeting meeting the conditions; with skip `(page - 1) * limit` the page holds min(limit, total - skip) items |
| MeetingsService.GetMyMeetingsOnce | src/modules/meetings/meetings.service.ts:339-377 | across all pages each meeting meeting the conditions is listed exactly once and no other meeting is |
| MeetingsService.MyStatusFollowsQuery | src/modules/meetings/meetings.service.ts:351-391 | with unique (user, meeting) rows, 'pending' shows a non-host PENDING and 'accepted' or 'completed' shows ACCEPTED |
| Chats.IsUserInMeetingIff | src/modules/chats/chats.service.ts:70-75 | in the chat iff the user's row for the meeting is ACCEPTED; a missing, PENDING or REJECTED row keeps the user out |
| Chats.ApprovalGovernsChat | src/modules/chats/chats.service.ts:70-75 | a successful approveOne lets the applicant into the chat; a successful cancelApproval shuts them out |
| Chats.HostCanLeaveOwnChat | src/modules/meetings/participations.service.ts:341-355 | cancelApproval on the host's own row of a fresh meeting succeeds and takes the host out of the chat |
| Chats.ChatStore.CreateMessage | src/modules/chats/chats.service.ts:51-60 | exactly one message, stamped with the call's time, is appended to the store and returned |
| Chats.OfMeeting | src/modules/chats/chats.service.ts:63-64 | only the meeting's messages, each as many times as in the store |
| Chats.GetMessages | src/modules/chats/chats.service.ts:62-68 | all the meeting's messages and only them, ascending by `createdAt` |
| Chats.CreateThenGet | src/modules/chats/chats.service.ts:51-68 | a new message appears once more in its own meeting's history and leaves every other history unchanged |
| Chats.LastMessage | src/modules/chats/chats.service.ts:18-22 | none iff the meeting has no message; otherwise a message of the meeting that no other message of it is newer than |
| Chats.AcceptedRowsOf | src/modules/chats/chats.service.ts:11-12 | exactly the user's ACCEPTED rows, each once, ascending, as many as the user has |
| Chats.GetUserChatRooms | src/modules/chats/chats.service.ts:9-49 | as many rooms as the user has ACCEPTED rows |
| Chats.ChatRoomsExact | src/modules/chats/chats.service.ts:29-47 | a room for a meeting iff the user's row there is ACCEPTED; `isLeader` iff the user hosts it; `memberCount` counts rows of every status; `lastMessage` is the newest |
| Chats.ChatRoomsDistinct | src/modules/chats/chats.service.ts:11-47 | with the unique (user, meeting) key, no meeting appears in two rooms |
| PageMeta.CeilDiv | src/modules/common/dto/page-meta.dto.ts:11 | the least number of pages of `limit` rows that hold `totalCount` rows: enough pages, one fewer would not hold a non-empty count, and none for no rows |
| PageMeta.CeilDivIsCeiling | src/modules/common/dto/page-meta.dto.ts:11 | equals `Math.ceil` of the real quotient |
| PageMeta.CeilDivAsQuotient | src/modules/common/dto/page-meta.dto.ts:11 | equals `(totalCount + limit - 1) / limit` in integer division |
| PageMeta.NewPageMeta | src/modules/common/dto/page-meta.dto.ts:7-12 | `totalCount`, `page` and `limit` stored as given; `totalPages * limit >= totalCount`, and one page fewer would not hold a non-empty count |
| PageMeta.PageCountEdges | src/modules/common/dto/page-meta.dto.ts:11 | no rows means no pages; a non-empty count up to `limit` means one page |
| ParticipationTable.FindRow | src/modules/meetings/participations.service.ts:54-56 | the key lookup returns the first row for (user, meeting), or none iff there is no such row |
| ParticipationTable.MeetingRows | src/modules/meetings/participations.service.ts:269-274 | exactly the meeting's rows with the status, ascending, as many as their count |
| ParticipationTable.FindRowUnique | src/modules/meetings/participations.service.ts:54-56 | with the unique key, the lookup of a row's pair finds that row |
| NotificationTable.SetRead | src/modules/meetings/participations.service.ts:177-186 | `updateMany` sets the read flag on exactly the selected rows and changes nothing else |
| NotificationTable.DeleteWhere | src/modules/meetings/participations.service.ts:362-369 | `deleteMany` removes exactly the selected rows |
| NotificationTable.SetReadTwice | src/modules/meetings/participations.service.ts:381-389 | of two `updateMany` calls on the same rows only the last counts |
| CounterLemmas.CreateParticipationKeepsCounters | src/modules/meetings/participations.service.ts:62-74 | a join keeps integrity and leaves every counter equal to its ACCEPTED count and within capacity |
| CounterLemmas.ApproveOneKeepsCounters | src/modules/meetings/participations.service.ts:150-175 | an approval of a row of this meeting keeps `current == #ACCEPTED` and `current <= max` |
| CounterLemmas.RejectOneKeepsCounters | src/modules/meetings/participations.service.ts:228-231 | a rejection keeps the counters exact and bounded |
| CounterLemmas.ApproveAllKeepsCounters | src/modules/meetings/participations.service.ts:276-299 | approve-all keeps the counters exact and within capacity |
| CounterLemmas.CancelApprovalKeepsCounters | src/modules/meetings/participations.service.ts:352-360 | cancelling an approval of this meeting's row keeps the counters exact and bounded |
| CounterLemmas.CancelRejectionKeepsCounters | src/modules/meetings/participations.service.ts:421-424 | cancelling a rejection keeps the counters exact and bounded |
| CounterLemmas.CreateKeepsCounters | src/modules/meetings/meetings.service.ts:87-113 | a new meeting with capacity at least 1 starts with its counter equal to its one ACCEPTED row |
| CounterLemmas.UpdateMyMeetingKeepsCounters | src/modules/meetings/meetings.service.ts:134-141 | the capacity guard keeps `current <= max` through an edit |
| CounterLemmas.SoftDeleteKeepsCounters | src/modules/meetings/meetings.service.ts:452-456 | deletion keeps the counters exact and bounded |
| NotificationLemmas.WithdrawAcceptanceEffect | src/modules/meetings/participations.service.ts:362-389 | after cancel-approval's notification steps: no ACCEPTED notice, one more CANCELLED, every request unread, all else as before |
| NotificationLemmas.WithdrawRejectionEffect | src/modules/meetings/participations.service.ts:426-443 | after cancel-rejection's steps: no REJECTED notice, every request unread, all else as before |
| NotificationLemmas.AcceptStepEffect | src/modules/meetings/participations.service.ts:177-196 | approval reads the applicant's requests and adds one unread ACCEPTED notice; all else as before |
| NotificationLemmas.RejectStepEffect | src/modules/meetings/participations.service.ts:233-252 | rejection reads the applicant's requests and adds one unread REJECTED notice; all else as before |
| NotificationLemmas.AcceptEachEffect | src/modules/meetings/participations.service.ts:301-322 | the approve-all loop reads every request of each requester and adds one ACCEPTED notice per requester |
| NotificationLemmas.PendingUsersMembers | src/modules/meetings/participations.service.ts:269-274 | a row's user is among approve-all's requesters iff that row is PENDING |
| NotificationLemmas.CreateParticipationKeepsValid | src/modules/meetings/participations.service.ts:62-74 | a join keeps the whole invariant: the new PENDING row has one unread request and no decision notices |
| NotificationLemmas.ApproveOneKeepsValid | src/modules/meetings/participations.service.ts:167-196 | approval keeps the whole invariant |
| NotificationLemmas.RejectOneKeepsValid | src/modules/meetings/participations.service.ts:228-252 | rejection keeps the whole invariant |
| NotificationLemmas.ApproveAllKeepsValid | src/modules/meetings/participations.service.ts:287-322 | approve-all keeps the whole invariant |
| NotificationLemmas.CancelApprovalKeepsValid | src/modules/meetings/participations.service.ts:352-389 | cancel-approval keeps the whole invariant |
| NotificationLemmas.CancelRejectionKeepsValid | src/modules/meetings/participations.service.ts:421-443 | cancel-rejection keeps the whole invariant |
| NotificationLemmas.CreateKeepsValid | src/modules/meetings/meetings.service.ts:87-113 | creating a meeting of capacity at least 1 keeps the whole invariant |
| NotificationLemmas.UpdateMyMeetingKeepsValid | src/modules/meetings/meetings.service.ts:175-191 | editing keeps the whole invariant |
| NotificationLemmas.SoftDeleteKeepsValid | src/modules/meetings/meetings.service.ts:452-471 | deletion keeps the whole invariant |
| EngineProperties.JoinOnce | src/modules/meetings/participations.service.ts:54-74 | after a join the key finds the one new PENDING row and one unread request; the same request again is a Conflict |
| EngineProperties.ApproveOneNotifies | src/modules/meetings/participations.service.ts:167-196 | after an approval: row ACCEPTED, exactly one ACCEPTED notice, the one request read, counter up by one |
| EngineProperties.RejectOneNotifies | src/modules/meetings/participations.service.ts:202-256 | after a rejection: row REJECTED, exactly one REJECTED notice and it is unread, the one request read, meetings (and counters) unchanged |
| EngineProperties.CancelApprovalNotifies | src/modules/meetings/participations.service.ts:352-389 | after cancel-approval: row PENDING, no ACCEPTED notice, the request unread, counter down by one |
| EngineProperties.AcceptThenWithdraw | src/modules/meetings/participations.service.ts:177-389 | on the notification store, approve then cancel-approval leaves it as it was plus the cancellation notice |
| EngineProperties.RejectThenWithdraw | src/modules/meetings/participations.service.ts:233-443 | on the notification store, reject then cancel-rejection leaves it exactly as it was |
| EngineProperties.ApproveThenCancel | src/modules/meetings/participations.service.ts:135-393 | approveOne then cancelApproval restores every store except for the added cancellation notice |
| EngineProperties.RejectThenCancel | src/modules/meetings/participations.service.ts:202-445 | rejectOne then cancelRejection restores every store |
| EngineProperties.ApproveAllAllOrNothing | src/modules/meetings/participations.service.ts:269-299 | approve-all fails for seats iff #PENDING > max - current; on success no PENDING row is left, all of them are ACCEPTED and `current <= max` |
| EngineProperties.PromoteLeavesNoPending | src/modules/meetings/participations.service.ts:287-292 | promoting every PENDING row of the meeting leaves none PENDING |
| EngineProperties.CreateStarts | src/modules/meetings/meetings.service.ts:87-113 | a new meeting gets the next id, its host has its one ACCEPTED row, and the counter 1 equals the ACCEPTED count |
| EngineProperties.EditIdempotent | src/modules/meetings/meetings.service.ts:175-191 | absent fields and a 0 number keep their old values; an edit applied twice is applied once |
| EngineProperties.DeletionNoticeCount | src/modules/meetings/meetings.service.ts:458-465 | each ACCEPTED non-host member gets one MEETING_DELETED notice per row; nobody else, and never the host, gets one |
| EngineProperties.DeletionNoticeTotal | src/modules/meetings/meetings.service.ts:458-471 | the number of notices is the meeting's ACCEPTED rows minus the host's |
| EngineProperties.SoftDeleteNotifiesMembers | src/modules/meetings/meetings.service.ts:421-471 | in a consistent state, deleting notifies exactly the `currentParticipants - 1` other members, one notice each |
| EngineProperties.ForeignApprovalMiscounts | src/modules/meetings/participations.service.ts:156-175 | approveOne accepts a row of another meeting, and the counters stop matching the ACCEPTED rows |
| EngineProperties.ZeroCapacityOverfills | src/modules/meetings/dto/create-meeting.dto.ts:18-21 | a meeting created with capacity 0 starts over capacity |
| Users.UserDb.IsNicknameAvailable | src/modules/users/users.service.ts:324-330 | true iff no user holds the nickname |
| Users.UserDb.IsEmailAvailable | src/modules/users/users.service.ts:332-338 | true iff no user holds the address |
| Users.UserDb.RegisterUser | src/modules/users/users.service.ts:59-111 | a taken address is a Conflict before a taken nickname; either creates nothing; otherwise one user without a bio under the next id; key uniqueness is kept |
| Users.UserDb.UpdateUser | src/modules/users/users.service.ts:207-298 | missing id is Internal; a non-empty nickname held by another user is a Conflict, one's own is not; on success nickname and bio are stored, links reconciled only for a non-empty list, the returned interests are the user's links |
| Users.UserDb.ReconcileInterests | src/modules/users/users.service.ts:245-279 | the delete and create steps leave exactly `Reconcile` of the old table and keep the table's keys valid |
| Users.UserDb.CreateLinks | src/modules/users/users.service.ts:274-278 | one link per interest to add, in order, with consecutive fresh ids |
| Users.DropNothing | src/modules/users/users.service.ts:267-273 | skipping `deleteMany` when nothing is to be deleted is the same as deleting nothing |
| InterestLinks.UserLinks | src/modules/users/users.service.ts:252-255 | exactly the user's links |
| InterestLinks.ValidIds | src/modules/users/users.service.ts:246-250 | exactly the requested ids in the interest table, ascending and without repeats |
| InterestLinks.ToDelete | src/modules/users/users.service.ts:259-261 | the ids of exactly the current links whose interest is not wanted |
| InterestLinks.ToAdd | src/modules/users/users.service.ts:264 | exactly the wanted interests not yet linked |
| InterestLinks.DropIds | src/modules/users/users.service.ts:269-271 | exactly the links whose id is not deleted |
| InterestLinks.DropKeepsTable | src/modules/users/users.service.ts:269-271 | deletion keeps ids ascending and one link per (user, interest) |
| InterestLinks.KeptLinks | src/modules/users/users.service.ts:259-271 | a link survives the deletion iff it is not the user's link to an unwanted interest |
| InterestLinks.ReconcileLinksValid | src/modules/users/users.service.ts:245-279 | afterwards the user is linked to an interest iff it exists and was requested |
| InterestLinks.ReconcileKeepsWanted | src/modules/users/users.service.ts:259-261 | a link to a still-wanted interest is kept, not deleted and re-created |
| InterestLinks.ReconcileAddsMissing | src/modules/users/users.service.ts:263-278 | every new link is the user's, has a fresh id and names an interest the user was not linked to |
| InterestLinks.ReconcileOthersUntouched | src/modules/users/users.service.ts:252-279 | every other user's links are left exactly as they were |
| InterestLinks.ReconcileKeepsTable | src/modules/users/users.service.ts:266-279 | the result keeps ids ascending and below the next free id, with no duplicate (user, interest) link |

## Left out

- Concurrency and isolation: each `$transaction` is one atomic step. Races are not modelled,
  including those from `createParticipation` checking outside its transaction and `softDelete`
  reading participations before its transaction.
- Kakao geocoding in `create` and `updateMyMeeting` (network I/O and floating-point coordinates);
  latitude and longitude are not stored.
- Image uploads (meeting and profile images) and mail.
- Passwords, bcrypt, JWT and refresh tokens: `registerUser` is modelled up to the created user.
  Its tokens and its mapping of store failures to an internal error are not modelled.
- Controllers, the WebSocket gateway, guards and the HTTP status mapping. Errors are the `Error`
  datatype.
- KST date formatting of the listings: dates are integers, and `new Date()` is the parameter
  `now`. `updatedAt` is set at creation and not maintained by edits.
- `findAll`'s `interestFilter` string is modelled as the `InterestFilter` datatype: 'ALL'
  becomes `AllInterests`, and a number becomes `OnlyInterest`. Parsing a non-numeric string
  (`Number` yields NaN and matches nothing) is not modelled.
- The joined names and images in the listings, applicant lists, participant lists and chat
  rooms (interest names, nicknames, bios, profile images, message senders) are not modelled.
- Tie order of `orderBy` and the order of a `findMany` without `orderBy`: both are modelled as
  table (id) order, and ties in the sort key keep insertion order.
- Notification ids and timestamps, and message ids.
- `searchMeetings`, `findOne`, `NotificationsService.getNotifications` and the rest of
  `UsersService` (Google sign-in, token refresh, profile lookup).
- MeetingsService.FindAll: requires page >= 1 and limit >= 1. The page options DTO
  (src/modules/common/dto/page-options.dto.ts) that should enforce this is not part of this
  model.
- MeetingsService.GetMyMeetings: requires page >= 1 and limit >= 1, for the same reason.
- CounterLemmas.ApproveOneKeepsCounters: proved only when `pId` is a row of `meetingId`
  (`Targets`), because the source looks the row up by id alone.
  `EngineProperties.ForeignApprovalMiscounts` shows the counters break otherwise.
- CounterLemmas.CancelApprovalKeepsCounters: proved only under `Targets`, for the same reason.
- NotificationLemmas.ApproveOneKeepsValid: proved only under `Targets`.
- NotificationLemmas.RejectOneKeepsValid: proved only under `Targets`.
- NotificationLemmas.CancelApprovalKeepsValid: proved only under `Targets`.
- NotificationLemmas.CancelRejectionKeepsValid: proved only under `Targets`.
- CounterLemmas.CreateKeepsCounters: proved only for a capacity of at least 1, which `create`
  does not check. `EngineProperties.ZeroCapacityOverfills` shows the alternative.
- NotificationLemmas.CreateKeepsValid: proved only for a capacity of at least 1.
- EngineProperties.ApproveOneNotifies: stated for a non-host target only. For the host's own
  row no notification invariant is kept.
- EngineProperties.RejectOneNotifies: stated for a non-host target only.
- EngineProperties.CancelApprovalNotifies: stated for a non-host target only.
  `Chats.HostCanLeaveOwnChat` shows that the host's row can be targeted.
- EngineProperties.ApproveThenCancel: stated for a non-host row of the meeting only.
- EngineProperties.RejectThenCancel: stated for a non-host row of the meeting only.
- Chats.GetUserChatRooms: requires every row to name an existing meeting. This is the foreign
  key the database enforces.
- Users.UserDb.UpdateUser: the user update and the interest step are separate writes in the
  source. Nothing can fail between them in the model, so a store failure between the two is
  not modelled.
- Uniqueness of e-mail addresses and nicknames is part of the invariant of `Users.UserDb`. It
  stands for the database's unique indexes, which are not modelled separately.
- Engine.Create: `interestId` is a foreign key to the interest table, which the meeting store
  does not hold. For an id that names no interest the source's insert fails with an uncaught
  store error; the model accepts any id and succeeds.
- Engine.UpdateMyMeeting: for the same reason, an edit naming a missing interest fails in the
  source with an internal error; the model accepts it and succeeds.
