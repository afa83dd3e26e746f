# Shuchuang: a verified model

Shuchuang is a remote door system. A public relay (`TransmitServer`) holds one long-lived socket per device,
forwards the requests of HTTP callers down that socket and hands each device's answer back to the caller that is
blocked on it. A device (`Device`) keeps user accounts with opening quotas, a door, an operation log, and a weekly
scheduler. This project models the stateful core of both in Dafny and proves what it keeps over whole runs.
`dafny verify dfyconfig.toml` checks all of it.

## How it is laid out

Each component is written twice. A specification gives every operation as a function from one state value to the
next, and the theorems about runs are about that specification. Where the program updates fields, a class holds the
same fields, its methods take the program's steps in its order, with its loops, and each method is proved to produce
exactly the specified state and reply.

| file | component | main results |
|---|---|---|
| `CallTable.dfy`, `Messages.dfy` | `m_request_map` of `CRegServer`, the message formats, `CRPCClient` | every released caller got the answer to its own request, or its time was over |
| `SocketPool.dfy` | idle map, select list, handler tasks and inner socket of `CRegServer` | one place for each socket, no lost wake-up |
| `RegServer.dfy` | `CRegServer` and `CRegMsgHandler` in place | the loops and regions perform the steps of the two files above |
| `DeviceRegistry.dfy` | `CDeviceManager` | the two maps are inverse; what the sweep and its notices leave |
| `KeepAlive.dfy` | `CRegProxy` against the sweep | the exact trade-off of registration time and delivery delay |
| `Users.dfy`, `UserManager.dfy`, `UserRuns.dfy` | `CUserManager`, `CUserRecord` | distinct tokens, fixed administrators, one-shot challenges |
| `UserAnswers.dfy` | what `CUserManager` answers | exactly which passwords, challenges and accounts are accepted; replayed answers are refused |
| `Quota.dfy` | the write-behind opening counter | it answers as an eager counter would; pending never exceeds the allowance |
| `OperationLog.dfy` | `COpManager`, `COperationRecord` | no record is lost; pages join to the whole range |
| `DoorController.dfy` | `CDeviceController`, `CTaskHandler` | the log replays to the door; openings never exceed the allowance |
| `TaskClock.dfy`, `TaskManager.dfy` | `CTaskManager`, `CTaskHandler` | first-firing arithmetic, the weekday mask, and handlers, array and timer in step |

## What the model takes as given

- Instants are integers in microseconds, UTC offsets are seconds. Clock readings are inputs of each operation.
- The network is a set of messages ever sent in each direction. A message may be lost, delayed, repeated or, on the way
  up, made up by a device; it is never cut.
- The digest is an arbitrary function; where it matters which password was proved, it has no collisions. Generated tokens and challenges are inputs; tokens are new when generated.
- Every region that a mutex protects is one step, and steps interleave freely. The write that `handleTaskFinish` makes
  after it has released the mutex is a step of its own. On the device each operation of door, users, log or scheduler is
  one step.
- Tables are sequences of rows in insertion order, which is also the order in which rows are selected.

Some results hold under conditions which the program does not enforce. Each appears as a `requires`, and for each
there is a theorem that says exactly when things go wrong without it:

- Ids are new, because `std::map::insert` never overwrites: request ids (`CallTable.RegisteredExactlyIfIdIsFree`,
  `CallTable.AnswerGoesToTheHolder`), socket ids (`DeviceRegistry.OnlineKeepsInverse`,
  `DeviceRegistry.PassKeepsLiveDevicesExactly`), task ids (`TaskManagement.AddKeepsAgreeExactly`).
- An accepted top-up does not set a limited account below the openings already pending
  (`Quota.NextKeepsNoOverdraft`, `Quota.TopUpUnlimitsExactly`).
- A token stands while its openings are counted (`Quota.TokenChangeDiscardsPending`).
- For accounts without a token: nobody opens the door under the empty token (`Quota.FlushUnlimitsExactly`,
  `Quota.EmptyTokenUnlimits`). Accounts with a token do not need this.
- Requests to the scheduler ask for active 0 or 1 (`TaskManagement.AddKeepsNoClashExactly`,
  `TaskManagement.ModifyKeepsNoClashExactly`).
- The pool has a free thread for every readable socket (`SocketPool.FailedDispatchLosesTheSocketExactly`).
- Record timestamps increase (`OperationLog.BatchIsCompleteExactly`).

## Where the program differs from what one would expect

- `modifyTask` reports success but stores nothing when only the option changes, because the option is not compared
  (`TaskManagement.ModifyTakesEffectUnlessOptionAlone`).
- The weekday mask is compared with the UTC weekday although the task's time is local. The two agree exactly when the
  task's local time, taken back to UTC, stays on the same day (`TaskClock.ScheduledTaskFollowsLocalCalendar`).
- The comments on the weekday field in `TaskInfo.h:20-28` put Sunday at bit 0; the constants in the same file and the
  handler put Sunday at bit 6. The model follows the constants.
- Records are stamped in local time and pruned by a UTC cutoff, so west of UTC a record younger than thirty days can be
  pruned (`OperationLog.EarlyPruningExactly`).
- `deviceOnline` does not refresh the device's time, so the 120 seconds of the first sweep run from the token request
  (`KeepAlive.RunningDeviceStaysOnline`).
- A new user, and one who logged out or changed the password, has the empty token; the empty token passes the validity
  check through such a row, and its openings are all counted together. One login then shifts what is pending to another
  of these accounts, and a flush can make that one unlimited (`Quota.EmptyTokenUnlimits`).
- Two requests in one microsecond leave the second caller waiting for ever and hand the answer to the second request
  to the first caller (`CallTable.SameMicrosecondStrandsTheSecond`).
- A failing open of the device file leaves the descriptor -1, which every later call takes for an open one
  (`DoorControl.DeviceController.OpenDevice`).
- A password change to the empty password reports success and stores nothing (`UserAnswers.PasswdAnswerExactly`).
- The second step of a login ends or verifies the session of whatever token it carries, which need not be the session of
  the user it names (`UserAnswers.LoginAnswerLeaves`).
- `addUser` with an empty user name or password reports success and stores nothing, since the table's -1 counts as true.
- The sweep posts a notice for a stale device that never came online in every pass, and never removes it.
- `SocketTime::Connecting` is never set.

## Model

| member | source | states |
|---|---|---|
| `CallTable.CallerGetsItsOwnAnswer` | Src/TransmitServer/RegServer/RegServer.cpp:584-621 | in every interleaving of senders, replies (late, lost, repeated, forged) and sweeps, a registered caller is signalled at most once, is in the map exactly while unsignalled, and if it has a response, that response carries its own id and, unless forged, is the worker's answer to its own request; released without one, its time was over |
| `CallTable.ForwardedCallerIsToldItsOutcome` | Src/TransmitServer/HTTPServer/HTTPRequestHandler.cpp:191-213 | end to end, between the step that registered a forwarded request and the state in which its caller goes on, some step is what the caller is told of: a worker answered this very request, and the caller reads "good" with its parameters exactly for a good outcome and "failed" with its detail exactly for a bad one; or a sweep came after more than the request's timeout, and the caller reads its own request as failed by timeout |
| `CallTable.CallIsAsRegistered` | Src/TransmitServer/RegServer/RegServer.cpp:611-619 | timeout, request and id of a caller stay what they were when it was registered |
| `CallTable.ExpiredBySweep` | Src/TransmitServer/RegServer/RegServer.cpp:521-540 | a caller given up was given up by a sweep step that read the clock then |
| `CallTable.AnsweredInStep` | Src/Device/RPC/RPCClient.cpp:62-368 | a reply that no device made up was produced by a worker in some step |
| `CallTable.RefusedCallerIsTold404` | Src/TransmitServer/RegServer/RegServer.cpp:589-610 | a caller refused for want of a connection reads "failed" and 404 with its own action and parameters and waits for nothing |
| `CallTable.UnlabelledReleasesNobody` | Src/TransmitServer/RegServer/RegMsgHandler.cpp:157-166 | a request from a device, or a response without id, releases no caller |
| `CallTable.PendingCallersAreStillWaiting` | Src/TransmitServer/RegServer/RegServer.cpp:613-620 | no map entry ever points at a caller that has gone on and freed its request |
| `CallTable.EveryRunKeepsInv` | Src/TransmitServer/RegServer/RegServer.cpp:405-430 | ids and callers correspond one to one, pending means unsignalled, replies are their own, and links are honest, in every state of every run |
| `CallTable.NextKeepsInv` | Src/TransmitServer/RegServer/RegServer.cpp:405-430 | every single step keeps that invariant |
| `CallTable.MatchKeepsInv` | Src/TransmitServer/RegServer/RegServer.cpp:419-428 | matching a reply keeps the invariant, whether or not its id is known |
| `CallTable.SweepKeepsInv` | Src/TransmitServer/RegServer/RegServer.cpp:528-540 | a timeout sweep keeps the invariant |
| `CallTable.SweepLeavesNoneOverdue` | Src/TransmitServer/RegServer/RegServer.cpp:529-539 | after a sweep no pending request is older than its timeout |
| `CallTable.RegisteredExactlyIfIdIsFree` | Src/TransmitServer/RegServer/RegServer.cpp:611-615 | registration reaches the map if and only if the timestamp id is not pending already |
| `CallTable.StrandedIsNeverSignalled` | Src/TransmitServer/RegServer/RegServer.cpp:612-619 | a caller left out of the map is never signalled by any reply or sweep |
| `CallTable.AnswerGoesToTheHolder` | Src/TransmitServer/RegServer/RegServer.cpp:419-428 | the worker's answer to a request registered under an id is handed to whoever holds that id, and so to its own caller if and only if the id was free |
| `CallTable.SameMicrosecondStrandsTheSecond` | Src/TransmitServer/RegServer/RegServer.cpp:611-619 | a second request under a pending id leaves its caller in no map entry, and its answer is handed to the first caller |
| `Messages.ParseActionInvertsJoin` | Src/Device/RPC/RPCClient.cpp:48-60 | parsing an action succeeds with exactly the parts whose join at the first dot is the action, and fails exactly without a dot |
| `Messages.ForwardedExactly` | Src/TransmitServer/HTTPServer/HTTPRequestHandler.cpp:103-191 | exactly requests with parameters and a uuid are forwarded whose action joins a component other than "server" and "update" to an operation |
| `Messages.FormatErrorCodes` | Src/TransmitServer/HTTPServer/HTTPRequestHandler.cpp:25-61 | which code the HTTP side answers, exactly by what is missing or wrong |
| `Messages.ForwardedRequestIsAnswered` | Src/Device/RPC/RPCClient.cpp:351-366 | a forwarded request, stamped with an id, is answered under that id and its own action: "good" with the parameters exactly for a good outcome, "failed" with the detail exactly for a bad one |
| `Messages.WorkerRefuses` | Src/Device/RPC/RPCClient.cpp:93-141 | no answer to what is unparsable or a response, and codes 101, 105 and 103 by what is missing or wrong |
| `Messages.OnlyResponsesCarryIds` | Src/TransmitServer/RegServer/RegMsgHandler.cpp:157-166 | the id of a response is its own, or 1 if it has none, and 0 for everything else |
| `Messages.WorkerEchoesId` | Src/Device/RPC/RPCClient.cpp:351-366 | the id the server reads from a worker's answer is the id of the message answered, or 0 |
| `SocketPool.EveryRunKeepsInv` | Src/TransmitServer/RegServer/RegServer.cpp:469-513 | in every reachable state each accepted socket is idle and listed once, held by one task, or closed once; the list is the inner socket and the map's keys; no wake-up is lost; every push owes exactly one byte |
| `SocketPool.NextKeepsInv` | Src/TransmitServer/RegServer/RegServer.cpp:379-434 | every step, in any order the threads allow, keeps that invariant |
| `SocketPool.UnwatchedSocketWakesTheLoop` | Src/TransmitServer/RegServer/RegServer.cpp:474-512 | while the loop is blocked and no writer is between push and write, a listed socket it does not watch implies that select can return on the inner socket and that reading it does not block |
| `SocketPool.WalkIsNeverStuck` | Src/TransmitServer/RegServer/RegServer.cpp:487-510 | a walk over the readable sockets can always take its next step or end |
| `SocketPool.AcceptKeepsInv` | Src/TransmitServer/RegServer/RegServer.cpp:574-580 | accepting a socket keeps the invariant |
| `SocketPool.ScanDeviceKeepsInv` | Src/TransmitServer/RegServer/RegServer.cpp:494-509 | taking a readable socket out of list and map into a task keeps the invariant, even if it was removed meanwhile |
| `SocketPool.ScanInnerKeepsInv` | Src/TransmitServer/RegServer/RegServer.cpp:489-493 | reading the inner socket's byte keeps the invariant |
| `SocketPool.ReceiveKeepsInv` | Src/TransmitServer/RegServer/RegMsgHandler.cpp:23-74 | receiving data, a close or an exception keeps the invariant |
| `SocketPool.CloseKeepsInv` | Src/TransmitServer/RegServer/RegServer.cpp:387-394 | closing the socket of a finished task keeps the invariant: no socket is closed twice |
| `SocketPool.ReinsertKeepsInv` | Src/TransmitServer/RegServer/RegServer.cpp:397-401 | putting a socket back while its byte is still to be written keeps the invariant |
| `SocketPool.OfflineKeepsInv` | Src/TransmitServer/RegServer/RegServer.cpp:452-465 | removing an idle socket keeps the invariant |
| `SocketPool.EraseFacts` | Src/TransmitServer/RegServer/RegServer.cpp:455-459 | find and erase removes that socket and no other |
| `SocketPool.DataKeepsTheSocket` | Src/TransmitServer/RegServer/RegServer.cpp:395-412 | after any data the socket can only be put back: it is idle, listed and Connected, and nothing is closed |
| `SocketPool.EndClosesTheSocket` | Src/TransmitServer/RegServer/RegServer.cpp:387-394 | after an orderly close or an exception the socket can only be closed |
| `SocketPool.ClosedOnlyAtItsEnd` | Src/TransmitServer/RegServer/RegServer.cpp:384-412 | in every run a socket is closed only by a notice for it or after the task holding it met a close or an exception |
| `SocketPool.EndedInStep` | Src/TransmitServer/RegServer/RegMsgHandler.cpp:290-297 | a task whose socket is to be closed met a close or an exception in some step |
| `SocketPool.ReadableIsDispatched` | Src/TransmitServer/RegServer/RegServer.cpp:494-509 | a readable idle socket goes into the task and out of map and list |
| `SocketPool.ConnectedExactlyIfHeard` | Src/TransmitServer/RegServer/RegMsgHandler.cpp:28-73 | in every run an idle socket is Connected if and only if data was received on it, and never Connecting |
| `SocketPool.FailedDispatchLosesTheSocketExactly` | Src/TransmitServer/RegServer/RegServer.cpp:495-508 | if no thread is free for the task, the socket is in no place any more if and only if it was still idle |
| `RegServer.WalkDispatchesReadable` | Src/TransmitServer/RegServer/RegServer.cpp:487-510 | after a walk every readable socket that was idle is held by a task, and the other idle sockets are where they were |
| `RegServer.RegServer.constructor` | Src/TransmitServer/RegServer/RegServer.cpp:105-128 | the select list starts with the inner socket alone |
| `RegServer.RegServer.RegAccept` | Src/TransmitServer/RegServer/RegServer.cpp:574-580 | the accepted socket is idle, listed last, and one byte is written |
| `RegServer.RegServer.RemoveFromList` | Src/TransmitServer/RegServer/RegServer.cpp:455-459 | the scan erases the first occurrence, if any |
| `RegServer.RegServer.HandleOffline` | Src/TransmitServer/RegServer/RegServer.cpp:258-273 | the named idle socket is removed and closed; any other id changes nothing |
| `RegServer.RegServer.ScanItem` | Src/TransmitServer/RegServer/RegServer.cpp:489-509 | one readable socket is dispatched, ignored, or is the inner byte |
| `RegServer.RegServer.WalkReadable` | Src/TransmitServer/RegServer/RegServer.cpp:487-510 | the loop performs the scan step for every readable socket in order |
| `RegServer.RegServer.ReceiveBytes` | Src/TransmitServer/RegServer/RegMsgHandler.cpp:23-74 | the socket's state afterwards; a response is kept with the request id it carries (1 if none), other data has id 0; a connected device that closes is taken offline in the registry |
| `RegServer.RegServer.CloseSocket` | Src/TransmitServer/RegServer/RegServer.cpp:387-394 | the task's socket is closed and held no more |
| `RegServer.RegServer.ReinsertSocket` | Src/TransmitServer/RegServer/RegServer.cpp:407-412 | the task's socket is listed and idle again, with a byte still owed |
| `RegServer.RegServer.WriteInnerSocket` | Src/TransmitServer/RegServer/RegServer.cpp:130-145 | the owed byte is written |
| `RegServer.RegServer.ReleaseCaller` | Src/TransmitServer/RegServer/RegServer.cpp:419-428 | the caller of that id gets the reply and one signal and leaves the map; other callers are untouched |
| `RegServer.RegServer.HandleTaskFinish` | Src/TransmitServer/RegServer/RegServer.cpp:379-433 | the socket is closed if nothing was received, and put back with its byte written otherwise; a kept response performs the matching step of the call table under the id that response carries; the pool invariant is kept |
| `RegServer.RegServer.SendRequest` | Src/TransmitServer/RegServer/RegServer.cpp:584-617 | without a device or its socket the caller is refused with 404 and never registered; otherwise it is registered before the stamped request is sent |
| `RegServer.RegServer.HttpRequestTimer` | Src/TransmitServer/RegServer/RegServer.cpp:528-540 | the erasing loop signals exactly the overdue callers, once each, and leaves the rest |
| `DeviceRegistry.RegistrationAdmits` | Src/TransmitServer/DeviceManager.cpp:91-175 | the token request of a device that is new or not online is answered with a token, and exactly that token brings it online under the registering socket, stamped with the time of the token request |
| `DeviceRegistry.OnlineDeviceIsHeard` | Src/TransmitServer/DeviceManager.cpp:99-103 | an online device gets no token, and a registration or heartbeat only refreshes its time |
| `DeviceRegistry.StrangersAreRefused` | Src/TransmitServer/DeviceManager.cpp:121-146 | a device that is not online cannot keep itself alive, and an unknown one cannot come online or be bound |
| `DeviceRegistry.BindIsKept` | Src/TransmitServer/DeviceManager.cpp:244-255 | what is bound stays with the device and nothing else changes |
| `DeviceRegistry.OfflineRemovesOne` | Src/TransmitServer/DeviceManager.cpp:177-242 | both ways of going offline remove the device and its index entry and nothing else |
| `DeviceRegistry.NoticePostedExactly` | Src/TransmitServer/DeviceManager.cpp:81-86 | a notice is posted for a device if and only if it was last heard from more than 120 s ago |
| `DeviceRegistry.EveryRunKeepsInverse` | Src/TransmitServer/DeviceManager.cpp:91-242 | in every run without reused socket ids the two maps stay inverse on the online devices |
| `DeviceRegistry.NextKeepsInverse` | Src/TransmitServer/DeviceManager.cpp:91-255 | each operation keeps the maps inverse under a new socket id |
| `DeviceRegistry.InverseMeansExactly` | Src/TransmitServer/DeviceManager.cpp:158-160 | an id maps to a uuid exactly when that uuid is online with that id |
| `DeviceRegistry.OnlineKeepsInverse` | Src/TransmitServer/DeviceManager.cpp:139-175 | coming online keeps the maps inverse if and only if no newly admitted device brings an id that is indexed already |
| `DeviceRegistry.OfflineByUuidKeepsInverse` | Src/TransmitServer/DeviceManager.cpp:177-208 | going offline by uuid keeps the maps inverse if and only if a not yet online device does not carry an indexed id |
| `DeviceRegistry.OfflineByIdKeepsInverse` | Src/TransmitServer/DeviceManager.cpp:210-242 | going offline by id always keeps the maps inverse |
| `DeviceRegistry.SweepLeavesLiveDevices` | Src/TransmitServer/DeviceManager.cpp:70-89 | after a sweep every online device was heard from within 120 s, every non-stale or never online entry is unchanged, every removed device has a notice with its socket id, and the maps are inverse |
| `DeviceRegistry.PassIsSweep` | Src/TransmitServer/DeviceManager.cpp:77-87 | without reused ids the pass that takes stale devices offline by id leaves, in whatever order it meets them, exactly the swept registry and the notices of all stale devices |
| `DeviceRegistry.PassKeepsLiveDevicesExactly` | Src/TransmitServer/DeviceManager.cpp:81-86 | with reused ids a pass keeps every device that is not stale if and only if no stale never-online device carries the socket id of one of them |
| `DeviceRegistry.RemovedByPass` | Src/TransmitServer/DeviceManager.cpp:81-86 | whatever a pass removes was stale, or was indexed under the id of a stale device that never came online |
| `DeviceRegistry.NoticesRemoveNamedSockets` | Src/TransmitServer/RegServer/RegServer.cpp:258-273 | handling notices removes exactly the idle sockets they name and keeps the pool invariant |
| `DeviceRegistry.SweptDevicesHaveNoIdleSocket` | Src/TransmitServer/DeviceManager.cpp:81-86 | once the notices of a sweep are handled no removed device has an idle socket, and the remaining online devices keep theirs |
| `DeviceRegistry.DeviceManager.Add` | Src/TransmitServer/DeviceManager.cpp:91-119 | refused when online, the old token and a new time when known, a new entry otherwise |
| `DeviceRegistry.DeviceManager.Beat` | Src/TransmitServer/DeviceManager.cpp:121-137 | only an online device's time is refreshed |
| `DeviceRegistry.DeviceManager.Online` | Src/TransmitServer/DeviceManager.cpp:139-175 | with the right token the device is online under the socket id and indexed if the id is free; the time is not refreshed |
| `DeviceRegistry.DeviceManager.GoOfflineByUuid` | Src/TransmitServer/DeviceManager.cpp:177-208 | the device and the index entry of its id are gone |
| `DeviceRegistry.DeviceManager.GoOfflineById` | Src/TransmitServer/DeviceManager.cpp:210-242 | the index entry and the device it names are gone |
| `DeviceRegistry.DeviceManager.Bind` | Src/TransmitServer/DeviceManager.cpp:244-255 | a known device gets the mobile token and installation |
| `DeviceRegistry.DeviceManager.CheckDevices` | Src/TransmitServer/DeviceManager.cpp:77-87 | for any registry the loop performs the specified pass over all devices; without reused ids that leaves the swept registry and the notices of the stale devices |
| `KeepAlive.NeverSweptExactly` | Src/TransmitServer/DeviceManager.cpp:72-88 | no schedule with those bounds on registration time and delivery delay is swept if and only if the two add up to at most 75.000001 s, which is what 30 s + 5 s + 10 s leave of 24 times 5 s |
| `KeepAlive.RunningDeviceStaysOnline` | Src/Device/RegProxy/RegProxy.cpp:292-367 | from the registration on, with the token it was given, its four 10 s waits and at most 35 s delivery delay, a running device stays in the registry through all sweeps |
| `KeepAlive.StaysOnlineIffTimely` | Src/TransmitServer/DeviceManager.cpp:77-137 | where socket ids are not reused, the registry keeps an online device through any sequence of its heartbeats and sweeps exactly when no sweep comes more than 120 s after the last heartbeat |
| `KeepAlive.KeepAliveGap` | Src/Device/RegProxy/RegProxy.cpp:474-519 | a running loop leaves less than 45 s between two keepalives |
| `KeepAlive.ArrivalGap` | Src/Device/RegProxy/RegProxy.cpp:502-508 | delivery delays widen the gap between arrivals by at most the largest delay |
| `KeepAlive.CloseBeatsAreTimely` | Src/TransmitServer/DeviceManager.cpp:81-86 | heartbeats at most 120 s apart make every sweep in between harmless |
| `KeepAlive.SteadyLoopSends` | Src/Device/RegProxy/RegProxy.cpp:458-519 | as long as no receive or send fails, the loop keeps its connection and sends exactly at the first reading 30 s or more after the last keepalive |
| `KeepAlive.RegistrationStartsClock` | Src/Device/RegProxy/RegProxy.cpp:460-473 | a registration that succeeds starts connection and clock, one that fails changes nothing |
| `KeepAlive.FailedReceiveGivesUp` | Src/Device/RegProxy/RegProxy.cpp:490-496 | a failed receive gives the connection up at once |
| `KeepAlive.FailingSendsGiveUpExactly` | Src/Device/RegProxy/RegProxy.cpp:503-516 | while sends fail the connection is given up if and only if some reading is more than 120 s after the last keepalive |
| `KeepAlive.RegProxy.Tick` | Src/Device/RegProxy/RegProxy.cpp:460-518 | one iteration: registration without a connection, the connection given up on a failed receive or after more than 120 s of failed sends, a keepalive when 30 s have passed |
| `KeepAlive.RegProxy.Loop` | Src/Device/RegProxy/RegProxy.cpp:455-520 | the loop is the specified iteration over all its rounds |
| `UserManagement.UserManager.GetUserByToken` | Src/Device/Util/UserRecord.cpp:155-211 | every matching row is fetched into the record, so the last one stays; without one the blank record stays |
| `UserManagement.UserManager.UpdateUser` | Src/Device/Util/UserRecord.cpp:255-289 | the row of that username is replaced; nothing happens without username, password or row |
| `UserManagement.UserManager.CanUserOpenDoor` | Src/Device/Component/User/UserManager.cpp:130-154 | unlimited accounts always may, others while the stored count exceeds the pending openings |
| `UserManagement.UserManager.UserOpenDoor` | Src/Device/Component/User/UserManager.cpp:95-109 | the pending count of the token goes up by one |
| `UserManagement.UserManager.ChargeToken` | Src/Device/Component/User/UserManager.cpp:80-89 | the row of the token is charged if something remains |
| `UserManagement.UserManager.FlushCache` | Src/Device/Component/User/UserManager.cpp:73-93 | the erasing loop charges every token's row once, in whatever order, and empties the counter |
| `UserManagement.ChargeOneMore` | Src/Device/Component/User/UserManager.cpp:77-91 | charging tokens one by one is the same as charging them all at once |
| `UserManagement.UserManager.TimerCallback` | Src/Device/Component/User/UserManager.cpp:111-128 | flush, then exactly the challenges older than 60 whole seconds go |
| `UserManagement.UserManager.DoLogin` | Src/Device/Component/User/UserManager.cpp:248-385 | both steps of login as specified: every refusal, challenge and token of the first step, token and push settings after the second |
| `UserManagement.UserManager.DoPasswd` | Src/Device/Component/User/UserManager.cpp:387-457 | both steps of the password change, with every refusal, as specified |
| `UserManagement.UserManager.DoLogout` | Src/Device/Component/User/UserManager.cpp:596-629 | the session's row loses token and bound user, and the push settings are cleared |
| `UserManagement.UserManager.DoAddUser` | Src/Device/Component/User/UserManager.cpp:459-508 | an administrator adds a long-term or temporary user with an unused name; anything else is refused |
| `UserManagement.UserManager.DoDeleteUser` | Src/Device/Component/User/UserManager.cpp:510-547 | an administrator deletes a user who is not one |
| `UserManagement.UserManager.DoTopUp` | Src/Device/Component/User/UserManager.cpp:549-594 | the count is set, and the validity only if it lies between now and the administrator's own |
| `UserRuns.EveryRunKeepsTokensAndAdmins` | Src/Device/Component/User/UserManager.cpp:248-629 | over any sequence of login, passwd, logout, add, delete, top-up, opening and flush, no two users share a nonempty token and the set of level-9 accounts never changes |
| `UserRuns.NextKeepsCore` | Src/Device/Component/User/UserManager.cpp:248-629 | every operation keeps unique names, distinct tokens and the administrators |
| `UserRuns.LoginKeepsCore` | Src/Device/Component/User/UserManager.cpp:302-308 | login keeps tokens distinct, given a new token |
| `UserRuns.WithoutKeepsCore` | Src/Device/Util/UserRecord.cpp:122-148 | deleting a non-administrator keeps tokens distinct and the administrators |
| `UserRuns.ChargedKeepsCore` | Src/Device/Component/User/UserManager.cpp:73-93 | a flush keeps names, tokens and authorities |
| `UserRuns.ChallengeStep` | Src/Device/Component/User/UserManager.cpp:265-448 | one step changes a user's challenge only by issuing where none was, by answering it, or by expiry |
| `UserRuns.OutstandingWasIssued` | Src/Device/Component/User/UserManager.cpp:302-312 | an outstanding challenge was issued by an earlier step and has stood untouched since |
| `UserRuns.AcceptedStepAnswersLatestIssue` | Src/Device/Component/User/UserManager.cpp:318-372 | a successful second step carried the double digest of the user's stored password and of the latest issued and still unconsumed challenge, which is gone afterwards |
| `UserRuns.ChallengesAreOneShot` | Src/Device/Component/User/UserManager.cpp:321-323 | two removals of a user's challenge, by answer or expiry, remove two different issues, in turn: issue, removal, issue, removal |
| `UserRuns.IssuesAlternateWithRemovals` | Src/Device/Component/User/UserManager.cpp:406-429 | between two issues to the same user the first challenge was answered or expired |
| `UserRuns.TimerLeavesYoungChallenges` | Src/Device/Component/User/UserManager.cpp:111-128 | after a timer pass exactly the challenges younger than 61 s are left, unchanged |
| `UserAnswers.LoginIssuesExactly` | Src/Device/Component/User/UserManager.cpp:265-317 | the first step issues challenge and token exactly to an account in force that is free or bound to the asker |
| `UserAnswers.UnknownLoginIsRefused` | Src/Device/Component/User/UserManager.cpp:250-264 | a login that names nobody, or nobody known, changes nothing |
| `UserAnswers.LoginAnswerExactly` | Src/Device/Component/User/UserManager.cpp:227-246 | the second step accepts the answer computed from a password and a challenge if and only if they are the stored password and the outstanding challenge, and refuses it with 416 otherwise |
| `UserAnswers.LoginAnswerLeaves` | Src/Device/Component/User/UserManager.cpp:321-380 | the challenge is used up in any case; an accepted answer stamps the session and sets the push settings, a refused one ends the session |
| `UserAnswers.ReplayedAnswerIsRefused` | Src/Device/Component/User/UserManager.cpp:265-341 | in every run an answer that was accepted is refused when it is sent again against a later issue with another text while the password stands |
| `UserAnswers.IncompleteAnswerCostsTheChallenge` | Src/Device/Component/User/UserManager.cpp:324-338 | an answer without token or password costs the challenge |
| `UserAnswers.PasswdIssuesExactly` | Src/Device/Component/User/UserManager.cpp:396-420 | a password change starts exactly for a session in force |
| `UserAnswers.PasswdAnswerExactly` | Src/Device/Component/User/UserManager.cpp:424-453 | the second step is accepted if and only if it proves stored password and outstanding challenge; the new password is stored and the session ends, unless the new one is empty |
| `UserAnswers.IncompletePasswdCostsTheChallenge` | Src/Device/Component/User/UserManager.cpp:429-434 | an incomplete second step costs the challenge |
| `UserAnswers.NewPasswordCounts` | Src/Device/Component/User/UserManager.cpp:439-446 | after an accepted change a login succeeds if and only if it proves the new password |
| `UserAnswers.LoginThenAnswer` | Src/Device/Component/User/UserManager.cpp:265-372 | a login in two steps succeeds if and only if it proves the stored password |
| `UserAnswers.LogoutEndsSession` | Src/Device/Component/User/UserManager.cpp:598-629 | a logout is accepted while the account is in force, and its token lets nobody in afterwards |
| `UserAnswers.StrangerIsRefused` | Src/Device/Component/User/UserManager.cpp:186-199 | a token nobody has is refused by every operation with 402 |
| `UserAnswers.ExpiredIsRefused` | Src/Device/Component/User/UserManager.cpp:212-225 | an account out of force administers nothing |
| `UserAnswers.NonAdministratorIsRefused` | Src/Device/Component/User/UserManager.cpp:491-496 | an account not of level 9 adds, deletes and tops up nobody |
| `UserAnswers.AdministratorAddsExactly` | Src/Device/Component/User/UserManager.cpp:470-507 | an administrator adds exactly users of level 7 or 8 with an unused name; the stored row is the one asked for, without a session |
| `UserAnswers.AddedUserCanLogIn` | Src/Device/Component/User/UserManager.cpp:488-507 | the added user logs in with exactly the password given |
| `UserAnswers.AdministratorDeletesExactly` | Src/Device/Component/User/UserManager.cpp:519-546 | an administrator deletes exactly users below level 9, and all other rows stay |
| `UserAnswers.DeletedUserIsUnknown` | Src/Device/Component/User/UserManager.cpp:540-546 | a deleted user is unknown to login, even between its two steps |
| `UserAnswers.AdministratorTopsUpExactly` | Src/Device/Component/User/UserManager.cpp:558-593 | a top-up sets the count, and the validity if and only if it lies between now and the administrator's own |
| `UserAnswers.AbsentUserIsRefused` | Src/Device/Component/User/UserManager.cpp:526-577 | nobody is deleted or topped up who is not there |
| `UserAnswers.SessionIsFound` | Src/Device/Component/User/UserManager.cpp:186-199 | a session's token finds its row and passes exactly while the account is in force |
| `Quota.EveryAnswerIsEager` | Src/Device/Component/User/UserManager.cpp:130-154 | as long as a token stands and no top-up of its owner is accepted, every answer of the write-behind counter over a whole run is the answer of a count charged at once |
| `Quota.RemainingIsEager` | Src/Device/Component/User/UserManager.cpp:73-109 | over such a run stored minus pending is the eager count |
| `Quota.NextMatchesEager` | Src/Device/Component/User/UserManager.cpp:73-109 | each step moves the remaining count as the eager count |
| `Quota.AnswersAgreeExactly` | Src/Device/Component/User/UserManager.cpp:135-153 | the two answers agree if and only if the account is not overdrawn |
| `Quota.FlushKeepsRemaining` | Src/Device/Component/User/UserManager.cpp:73-93 | a flush leaves stored minus pending unchanged |
| `Quota.FlushStoresRemaining` | Src/Device/Component/User/UserManager.cpp:73-128 | after a flush or timer pass nothing is pending and the stored count of a limited account is what remained |
| `Quota.OpenMatchesEager` | Src/Device/Component/User/UserManager.cpp:95-109 | an opening lowers the remaining count of its own limited account by one and of no other |
| `Quota.SparingStepKeepsRemaining` | Src/Device/Component/User/UserManager.cpp:248-629 | any operation after which the token still stands, other than an accepted top-up of its owner, leaves the remaining count alone |
| `Quota.EveryRunKeepsNoOverdraft` | Src/Device/Component/User/UserManager.cpp:84-88 | in every run whose accepted top-ups cover the pending openings, pending never exceeds the stored count of a limited account with a token |
| `Quota.NoFlushUnlimits` | Src/Device/Component/User/UserManager.cpp:84-88 | in such a run no flush makes a limited account with a token unlimited, and none at all if nothing is opened under the empty token |
| `Quota.NextKeepsNoOverdraft` | Src/Device/Component/User/UserManager.cpp:73-154 | a step keeps pending within the allowance if and only if it is no accepted top-up below it |
| `Quota.FlushKeepsLimits` | Src/Device/Component/User/UserManager.cpp:84-88 | a flush keeps the sign of every count |
| `Quota.FlushUnlimitsExactly` | Src/Device/Component/User/UserManager.cpp:84-88 | for any account, with or without a token, a flush makes it unlimited if and only if its token leads to it and pending exceeds its positive stored count |
| `Quota.EmptyTokenUnlimits` | Src/Device/Component/DeviceController.cpp:129-176 | a run of two openings under the empty token, one login and a flush that makes a limited account unlimited |
| `Quota.TopUpUnlimitsExactly` | Src/Device/Component/User/UserManager.cpp:579-586 | after an accepted top-up to a limited count a flush makes the account unlimited if and only if its token leads to it and the count is positive but below pending |
| `Quota.TokenChangeDiscardsPending` | Src/Device/Component/User/UserManager.cpp:302-308 | a login's new token keeps the remaining count if and only if nothing was pending under the old one |
| `OperationLog.BatchIsCompleteExactly` | Src/Device/Util/OperationRecord.cpp:145-168 | a batch is inserted completely if and only if its timestamps are new |
| `OperationLog.BatchStopsAtFirstTaken` | Src/Device/Util/OperationRecord.cpp:145-168 | in any case the prefix of the batch goes in up to the first timestamp taken by then |
| `OperationLog.FlushLosesNothing` | Src/Device/Component/Record/OperationManager.cpp:59-70 | with increasing timestamps a flush moves the whole cache behind the table |
| `OperationLog.PruningCutsAPrefix` | Src/Device/Util/OperationRecord.cpp:170-192 | pruning increasing records cuts off exactly the prefix before the cutoff |
| `OperationLog.CutoffIsThirtyDaysBack` | Src/Device/Component/Record/OperationManager.cpp:80-88 | whatever is pruned is stamped more than thirty days back |
| `OperationLog.CutoffByDate` | Src/Device/Component/Record/OperationManager.cpp:80-88 | a pruning removes exactly records of a date more than thirty days before its own |
| `OperationLog.TimerPassPrunesExactly` | Src/Device/Component/Record/OperationManager.cpp:72-92 | a timer pass empties the cache into the table and, if a day has passed since the last pruning, keeps exactly the last thirty dates and restarts the clock; otherwise it keeps everything |
| `OperationLog.EarlyPruningExactly` | Src/Device/Component/DeviceController.cpp:155-157 | with local stamps a record younger than thirty days can be pruned if and only if the UTC time of day is less than the zone is behind UTC |
| `OperationLog.QueryCoversCache` | Src/Device/Component/Record/OperationManager.cpp:105-148 | a query answers the page over table and cache together |
| `OperationLog.BetweenIsTheRange` | Src/Device/Util/OperationRecord.cpp:202-211 | the selected rows are exactly those of the half-open range, in order, each once |
| `OperationLog.PageIsSlice` | Src/Device/Util/OperationRecord.cpp:207-211 | a page is the slice after the offset, as long as limit and rest allow; negative bounds are none |
| `OperationLog.PagesJoin` | Src/Device/Util/OperationRecord.cpp:207-211 | consecutive pages of one limit join, without gap or repeat, to the rows up to their end |
| `OperationLog.OperationRecord.AddBatch` | Src/Device/Util/OperationRecord.cpp:145-168 | inserts in order up to the first taken timestamp and reports -1 if it stopped |
| `OperationLog.OperationRecord.DeleteBefore` | Src/Device/Util/OperationRecord.cpp:170-192 | keeps the rows not before the cutoff and counts the others |
| `OperationLog.OperationRecord.GetRecords` | Src/Device/Util/OperationRecord.cpp:194-236 | BETWEEN start and end - 1, then LIMIT and OFFSET, is the requested page of the half-open range |
| `OperationLog.OperationManager.Add` | Src/Device/Component/Record/OperationManager.cpp:150-156 | the record goes to the end of the cache |
| `OperationLog.OperationManager.WriteAllRecords` | Src/Device/Component/Record/OperationManager.cpp:59-70 | the cache is inserted and emptied |
| `OperationLog.OperationManager.TimerCallback` | Src/Device/Component/Record/OperationManager.cpp:72-92 | flush, and prune if a day has passed since the last time |
| `OperationLog.OperationManager.GetRecords` | Src/Device/Component/Record/OperationManager.cpp:105-148 | flush, then the page |
| `DoorControl.EveryRunReplays` | Src/Device/Component/DeviceController.cpp:113-244 | in every run from `openDevice` the records alternate open and close beginning with open, the last one is the door's state, table and cache are a suffix of all records ever added, and what is missing was cut off by a pruning |
| `DoorControl.NextKeepsLogInv` | Src/Device/Component/DeviceController.cpp:113-244 | every step keeps that correspondence |
| `DoorControl.DoorStep` | Src/Device/Component/DeviceController.cpp:113-244 | a door operation or firing either changes neither door nor log or moves the door and logs exactly that |
| `DoorControl.LogStepCuts` | Src/Device/Component/Record/OperationManager.cpp:72-92 | a flush, query or timer pass only cuts a prefix of what is kept, all of it cut off by a pruning |
| `DoorControl.CutKeepsSuffix` | Src/Device/Component/Record/OperationManager.cpp:78-91 | cutting such a prefix leaves a suffix of the full history |
| `DoorControl.EveryMissingRecordWasOld` | Src/Device/Component/Record/OperationManager.cpp:78-91 | in every run a record that is missing was stamped more than thirty days before a timer pass of that run that pruned |
| `DoorControl.NotCutOffIsKept` | Src/Device/Component/Record/OperationManager.cpp:78-91 | a record that no pruning cut off is still in table or cache |
| `DoorControl.EveryQuerySeesAllKeptRecords` | Src/Device/Component/Record/OperationManager.cpp:105-148 | in every run a query answers the page of the range over all records not pruned, cached ones included |
| `DoorControl.OpeningsNeverExceedAllowance` | Src/Device/Component/DeviceController.cpp:121-179 | while its token stands and no top-up of its owner is accepted, the manual openings logged for a limited account are exactly what its allowance has lost, never more than the allowance |
| `DoorControl.BalanceIsConserved` | Src/Device/Component/DeviceController.cpp:113-244 | over such a run logged openings plus remaining count stay constant |
| `DoorControl.NextCosts` | Src/Device/Component/DeviceController.cpp:113-244 | every step keeps logged openings plus remaining count constant |
| `DoorControl.OpenerIsNamed` | Src/Device/Component/DeviceController.cpp:171-176 | a counted opening is logged under the owner's name if and only if it used the owner's token |
| `DoorControl.OpenCosts` | Src/Device/Component/DeviceController.cpp:121-180 | an opening costs the account of its token one, and a scheduled, refused or repeated one costs nothing |
| `DoorControl.OpensExactly` | Src/Device/Component/DeviceController.cpp:121-180 | a closed door opens exactly for the schedule or for a user with openings left whom the mode admits; the token is charged and the record tells who and how |
| `DoorControl.ClosesExactly` | Src/Device/Component/DeviceController.cpp:191-243 | an open door closes exactly for the schedule or for a user whom the mode admits, at no cost, and the record tells who and how |
| `DoorControl.RepeatedOrUnready` | Src/Device/Component/DeviceController.cpp:115-125 | a repeated operation does nothing, and none works before the device was opened |
| `DoorControl.ModeChangesExactly` | Src/Device/Component/DeviceController.cpp:246-270 | the mode is changed exactly by a user of level 9 |
| `DoorControl.FiresExactly` | Src/Device/Component/Task/TaskHandler.cpp:20-37 | a firing whose mask has the constant of the weekday of its UTC date leaves the door closed for option 0 and open for any other, at no cost; any other firing does nothing |
| `DoorControl.OneDayTaskFiresExactly` | Src/Device/Component/Task/TaskHandler.cpp:20-37 | a task for one weekday moves the door on that weekday, counted from Sunday 1970-01-04, and on no other |
| `DoorControl.DeviceController.OpenDevice` | Src/Device/Component/DeviceController.cpp:28-62 | the device counts as ready in any case; the door is closed if the build has a device file and it opens, and left alone otherwise |
| `DoorControl.DeviceController.DoOpenDoor` | Src/Device/Component/DeviceController.cpp:113-181 | refusals 420 and 421, nothing for an open door, otherwise door, record and counter as specified |
| `DoorControl.DeviceController.DoCloseDoor` | Src/Device/Component/DeviceController.cpp:183-244 | refusals 420 and 421, nothing for a closed door, otherwise door and record as specified |
| `DoorControl.DeviceController.DoChangeMode` | Src/Device/Component/DeviceController.cpp:246-270 | only an administrator changes the mode |
| `DoorControl.DeviceController.RunTask` | Src/Device/Component/Task/TaskHandler.cpp:17-43 | a firing on a masked weekday closes the door for option 0 and opens it otherwise; other firings do nothing |
| `TaskClock.FirstFiringIsEarliest` | Src/Device/Component/Task/TaskManager.cpp:51-77 | the first firing is more than 1 and at most 1441 minutes ahead, on the local hour and minute, and the earliest such instant at least two minutes after the current minute |
| `TaskClock.LaterFiringsKeepLocalTime` | Src/Device/Component/Task/TaskManager.cpp:76-76 | all later 24-hour firings keep that local time |
| `TaskClock.SevenFiringsActOncePerMaskDay` | Src/Device/Component/Task/TaskHandler.cpp:17-43 | any seven consecutive firings act exactly as many times as the mask has weekdays |
| `TaskClock.EveryWeekdayFiresOnce` | Src/Device/Component/Task/TaskHandler.cpp:20-25 | among seven consecutive firings each weekday comes up exactly once and acts exactly if masked |
| `TaskClock.ActsExactly` | Src/Device/Component/Task/TaskHandler.cpp:21-25 | a firing acts if and only if the mask has the constant of the weekday on which its UTC date falls, counted from Sunday 1970-01-04 |
| `TaskClock.OneDayTaskActsExactly` | Src/Device/Component/Task/TaskHandler.cpp:21-25 | a task for one weekday acts exactly on that weekday |
| `TaskClock.ShiftIsTaskDay` | Include/Device/Component/Task/TaskInfo.h:4-10 | shifting the Sunday constant by a weekday gives that weekday's constant |
| `TaskClock.MaskBitsAreSeparate` | Include/Device/Component/Task/TaskInfo.h:4-10 | the seven mask bits are distinct |
| `TaskClock.MaskFollowsLocalCalendar` | Src/Device/Component/Task/TaskHandler.cpp:20-25 | for every mask the acting days are those whose constant of the local date it has, if and only if UTC and local date agree at the firing |
| `TaskClock.DatesAgreeForTask` | Src/Device/Component/Task/TaskHandler.cpp:20-25 | for a firing at a given local time the dates agree if and only if that time less the offset is within one day |
| `TaskClock.ScheduledTaskFollowsLocalCalendar` | Src/Device/Component/Task/TaskManager.cpp:51-77 | all firings of a scheduled task follow the local calendar if and only if that guard on its time and offset holds |
| `TaskManagement.EveryRunIsConsistent` | Src/Device/Component/Task/TaskManager.cpp:79-361 | in every reachable state handlers, stored array and timer queue hold the same at most 32 tasks without repeated ids, exactly the active ones are scheduled, no two tasks share a slot, and first firings are on local time |
| `TaskManagement.LoadIsConsistentExactly` | Src/Device/Component/Task/TaskManager.cpp:79-111 | loading gives such a state if and only if the persisted array is sound, has at most 32 tasks, and no two share id or slot |
| `TaskManagement.EveryRunFromStoreIsConsistent` | Src/Device/Component/Task/TaskManager.cpp:79-361 | every run that starts by loading such an array stays consistent |
| `TaskManagement.NextKeepsConsistent` | Src/Device/Component/Task/TaskManager.cpp:177-368 | every operation keeps that |
| `TaskManagement.AddKeepsAgree` | Src/Device/Component/Task/TaskManager.cpp:177-235 | an addition, accepted or refused, keeps the three in step |
| `TaskManagement.AddKeepsAgreeExactly` | Src/Device/Component/Task/TaskManager.cpp:197-225 | an accepted addition keeps the three in step if and only if its timestamp id is new and not 0 |
| `TaskManagement.RemoveKeepsAgree` | Src/Device/Component/Task/TaskManager.cpp:237-280 | a removal keeps the three in step |
| `TaskManagement.ModifyKeepsAgree` | Src/Device/Component/Task/TaskManager.cpp:282-361 | a modification keeps the three in step |
| `TaskManagement.LoadAgrees` | Src/Device/Component/Task/TaskManager.cpp:79-111 | loading any array without repeated ids puts the three in step with it |
| `TaskManagement.ReloadRebuilds` | Src/Device/Component/Task/TaskManager.cpp:363-368 | reloading the persisted array rebuilds the same handler map and array and schedules the same tasks |
| `TaskManagement.AddKeepsNoClash` | Src/Device/Component/Task/TaskManager.cpp:210-216 | with active 0 or 1 an accepted addition clashes with no stored task |
| `TaskManagement.ModifyKeepsNoClash` | Src/Device/Component/Task/TaskManager.cpp:317-330 | with active 0 or 1 an accepted modification clashes with no other task |
| `TaskManagement.AddKeepsNoClashExactly` | Src/Device/Component/Task/TaskManager.cpp:169-216 | an accepted addition keeps the tasks free of clashes if and only if active is 0 or 1 or no inactive task has its slot |
| `TaskManagement.ModifyKeepsNoClashExactly` | Src/Device/Component/Task/TaskManager.cpp:169-330 | an accepted modification keeps them free of clashes if and only if active is 0 or 1 or no other inactive task has its slot |
| `TaskManagement.ActiveTwoIsAcceptedTwice` | Src/Device/Component/Task/TaskManager.cpp:169-172 | with active 2 the same task is accepted twice |
| `TaskManagement.SameTaskExactly` | Src/Device/Component/Task/TaskManager.cpp:164-175 | the search finds nothing if and only if no stored task has the same time, days and active flag |
| `TaskManagement.AddAnswersExactly` | Src/Device/Component/Task/TaskManager.cpp:179-216 | which addition is refused with 430, 433 or 434, exactly, and that a refusal changes nothing |
| `TaskManagement.AddedTaskIsStored` | Src/Device/Component/Task/TaskManager.cpp:217-234 | the stored task is field by field the one asked for, queued if and only if active is 1, and all others stay |
| `TaskManagement.QueuedTaskIsDue` | Src/Device/Component/Task/TaskManager.cpp:217-229 | a task added or modified as active is due on its local time, more than 1 and at most 1441 minutes ahead |
| `TaskManagement.RemovedTaskIsGone` | Src/Device/Component/Task/TaskManager.cpp:250-279 | a removal is accepted exactly for a stored task, which is then in neither map, array, store nor queue, and all others stay |
| `TaskManagement.ModifyAnswersExactly` | Src/Device/Component/Task/TaskManager.cpp:300-330 | which modification is refused with 435, 432 or 434, exactly, and that a refusal changes nothing |
| `TaskManagement.ModifiedTaskIsStored` | Src/Device/Component/Task/TaskManager.cpp:331-360 | a modification to a free slot stores the task field by field, queues it anew if and only if active is 1, and leaves all others |
| `TaskManagement.IncompleteTaskIsRefused` | Src/Device/Component/Task/TaskManager.cpp:184-195 | a request without task or field is refused with 431 or 432 |
| `TaskManagement.LoadedTaskIsStored` | Src/Device/Component/Task/TaskManager.cpp:90-108 | after loading every task is kept field by field and queued by the clock if it is active |
| `TaskManagement.ModifyTakesEffectUnlessOptionAlone` | Src/Device/Component/Task/TaskManager.cpp:325-330 | an accepted modification stores what was asked if and only if it is not a change of option alone |
| `TaskManagement.TaskManager.constructor` | Src/Device/Component/Task/TaskManager.cpp:79-111 | the manager starts from the persisted array |
| `TaskManagement.TaskManager.AddToScheduleQueue` | Src/Device/Component/Task/TaskManager.cpp:51-77 | the steps of the clock arithmetic queue the handler at the specified first firing |
| `TaskManagement.TaskManager.LoadTasksConfig` | Src/Device/Component/Task/TaskManager.cpp:79-111 | the loop loads every element of the persisted array |
| `TaskManagement.TaskManager.FindSame` | Src/Device/Component/Task/TaskManager.cpp:164-175 | the walk in id order returns the least id whose time, weekday and active flag match, or 0 |
| `TaskManagement.TaskManager.Add` | Src/Device/Component/Task/TaskManager.cpp:177-235 | every refusal in the program's order, or the task in array, store, map and queue |
| `TaskManagement.TaskManager.FindIndex` | Src/Device/Component/Task/TaskManager.cpp:263-277 | the scan finds the first array element with the id |
| `TaskManagement.TaskManager.Remove` | Src/Device/Component/Task/TaskManager.cpp:237-280 | every refusal, or the task out of queue, map, array and store |
| `TaskManagement.TaskManager.Modify` | Src/Device/Component/Task/TaskManager.cpp:282-361 | every refusal, nothing for an unchanged slot, or the task replaced everywhere and queued again if active |
| `TaskManagement.TaskManager.ResetTasks` | Src/Device/Component/Task/TaskManager.cpp:363-368 | everything is cancelled and the persisted array loaded again |

## Left out

- Object lifetimes: callers, handler tasks and sockets are numbers; `release`, `delete` and the read after `delete` in `deviceOffline` (`DeviceManager.cpp:187-188`, read here before the delete) are not modelled.
- Races between unlocked reads on the device and the server, such as the size check in `addTask` or `m_pReg_map.find` in `sendRequest`: each operation or region is one step.
- The SSL side of the relay (`sslAccept`, `sslHandler`, `handleSslMsg` apart from `addDevice` and `bindMobile`), TLS, listening and accepting: the same structure again, or I/O.
- The dispatch in `handleRegMsg` to registry operations and in `runTask` to components: the registry operations are steps of their own, and the component's outcome is a parameter of the worker.
- `handleNf` drops an answer whose connection is gone: this is one of the ways in which a message is lost.
- JSON text, SQL text, buffers of 512 bytes, MD5, UUIDs, GPIO, LEDs, push notices, logging, NTP, FTP, configuration and update managers: I/O and foreign calls; incomplete JSON parameters appear as missing fields.
- Factory reset (`resetConfig`, `resetUser`, `resetOpRecord`): it replaces state wholesale from files.
- `listUser`, `getTasks`, `checkDoor`, `getMode`, `unbindMobile`, and the notifications `login` and `logout` post: they would only add easy members.
- Refusal 440 of `getRecords` for missing fields and the error returns of a database that is not open: they change nothing.
- 32-bit overflow of counters and the cut of an out-of-range persisted weekday to one byte: integers are unbounded, and the invariant keeps weekdays below 0x80.
- Drift of the 24-hour timer and daylight saving: firings are taken exactly 24 hours apart and the offset is constant.
- Rows that share the empty token: a lookup of the empty token takes the last such row in table order.
- An exhausted thread pool: `SocketPool.FailedDispatchLosesTheSocketExactly` says what one failed dispatch loses, but the runs take a thread to be free, and the mutex that the exception leaves locked is not modelled.
- TaskClock.MaskFollowsLocalCalendar: does not cover offsets of a day or more, which no time zone has.
- KeepAlive.NeverSweptExactly: considers the heartbeats of one device and the sweeps, in order of arrival; the rest of the registry's traffic is left out.
- KeepAlive.RunningDeviceStaysOnline: takes the 10 s waits of registration as bounds; the time the sends themselves take is part of the delivery delay.
- DeviceRegistry.DeviceManager.CheckDevices: a pass that removes the device it would meet next continues from a deleted entry in the source; here it goes on with the rest.
- DoorControl.OpeningsNeverExceedAllowance: speaks of one token; openings pending under an earlier token of the same user are covered by `Quota.TokenChangeDiscardsPending`.
- RegServer.RegServer.SendRequest: ends where the caller starts to wait; the wait and the release are steps of `CallTable`.
