# Controller startup and webhook registration groups

This project models two parts of the controller manager library.

The first is the controller extension, which boots a set of controllers inside one process:

- It validates that every controller named as required by a declared controller is itself declared.
- It adds the controllers that the activated controllers require directly.
- It turns each registration into a controller and files it into one startup group. The group is a lease group when the controller needs leader election and a plain group otherwise. Groups are keyed by the controller's main cluster.
- It gives every controller an unreached readiness barrier and lists the controllers in order.
- It checks all controllers before any group is started.
- It starts one controller after the barriers of its `after` controllers have been reached. Then it prepares the controller and reaches the controller's own barrier.

The second is the webhook registration group of one cluster:

- a table of webhook declarations grouped by kind;
- a table that maps each registration name to the set of kinds registered under it;
- a map from cluster id to group, filled on demand.

Files:

- `wrappers.dfy`: `Option` and `Result`, which stand for Go's `error` returns.
- `extension.dfy`: module `ControllerExtension`.
- `reggrp.dfy`: module `WebhookRegistration`.

Collaborators whose code is not part of this model are parameters of the methods that call them. These are the requirement lookup, the registration lookup, the construction of a controller, the dependency ordering, a controller's check and prepare steps, the group start, and the outcome of a blocking barrier wait.

The barrier map `prepared` is a `map<Name, bool>`. A name has a barrier when it is a key, and the value says whether that barrier has been reached. A blocking `Sync` is the oracle `syncOk(name)`: true means the wait ended with the barrier reached, false means the context was cancelled.

Activation makes one pass over the initially activated controllers (`pkg/controllermanager/controller/extension.go:138-150`). A fixed-point closure would also expand the requirements of the implied controllers until nothing new is implied; the code does not. `SinglePassMissesIndirectRequirement` shows the difference. `ImpliedClosedWhenTransitive` shows when the single pass is enough: when the lookup already returns transitive requirements.

## Model

| member | source | states |
|---|---|---|
| `ControllerExtension.Validate` | pkg/controllermanager/controller/extension.go:84-93 | Succeeds exactly when every controller required by a declared definition is declared. Otherwise the error names a declared controller, one of its required controllers, and that required controller is undeclared. |
| `ControllerExtension.ImplyRequired` | pkg/controllermanager/controller/extension.go:138-150 | Fails exactly when the lookup of some activated controller fails, with that lookup's error. On success the implied names are exactly the union of the activated controllers' requirements minus the activated set. The active set is the activated set plus the implied names, so it only grows and holds every direct requirement of an activated controller. |
| `ControllerExtension.ImpliedClosedWhenTransitive` | pkg/controllermanager/controller/extension.go:138-150 | If the lookup already returns transitive requirements, the single pass yields a set that holds every requirement of every active controller. |
| `ControllerExtension.SinglePassMissesIndirectRequirement` | pkg/controllermanager/controller/extension.go:138-150 | Requirements of implied names are not expanded. With C requiring B and B requiring A, activating C implies only B, and the result lacks A although B requires it. |
| `ControllerExtension.ExampleActivation` | pkg/controllermanager/controller/extension.go:138-150 | With B requiring A, activating B and C implies exactly A. |
| `ControllerExtension.NewControllerExtension` | pkg/controllermanager/controller/extension.go:133-172 | A group-activation error, a requirement-lookup error or a registration error is returned, and then no extension is created. Otherwise a fresh extension holds the registrations of the activated set plus the implied names, and its plan, groups and barrier map are empty. |
| `ControllerExtension.Extension.constructor` | pkg/controllermanager/controller/extension.go:159-172 | A new extension keeps its registrations and starts with no controllers, no plain or lease groups and no barriers. |
| `ControllerExtension.Extension.Materialize` | pkg/controllermanager/controller/extension.go:206-228 | Returns the first construction error, if any. The plan becomes the old plan with every controller built before that point accepted in order. Accepting a controller means filing it into its group, appending it to `controllers` and giving it an unreached barrier. |
| `ControllerExtension.BuiltPerRegistration` | pkg/controllermanager/controller/extension.go:206-219 | Without a construction error, each registration yields exactly one controller, in order, built from that registration. With an error, the controllers of the registrations before the failing one are built and the failing registration's error is returned. |
| `ControllerExtension.AcceptAllControllers` | pkg/controllermanager/controller/extension.go:226 | Accepted controllers are appended to the controller list once each, in order. |
| `ControllerExtension.AcceptAllGroups` | pkg/controllermanager/controller/extension.go:221-225 | Each lease group and each plain group is its old contents followed by the accepted controllers of that main cluster. Lease groups get those that require a lease and plain groups get the others, in acceptance order. |
| `ControllerExtension.FiledExactlyOnce` | pkg/controllermanager/controller/extension.go:221-225 | Each controller is filed once per occurrence, into the group of its own main cluster and lease flag, and into no other group. |
| `ControllerExtension.AcceptAllBarriers` | pkg/controllermanager/controller/extension.go:227 | After acceptance every accepted controller has an unreached barrier under its name. Barriers of all other names are unchanged. |
| `ControllerExtension.CheckAll` | pkg/controllermanager/controller/extension.go:235-240 | Returns no error exactly when every controller's check passes. Otherwise it returns the check error of the first failing controller in list order. |
| `ControllerExtension.Extension.Start` | pkg/controllermanager/controller/extension.go:203-245 | A construction error or an ordering error is returned and the groups are not started. When a check fails, the error returned is the check error of the first failing controller in the ordered list, and the groups are not started. The groups and barriers are those of the accepted plan, and the controller list is the ordering's result. The groups are started, with their error returned, exactly when construction and ordering succeed and every controller passes its check. |
| `ControllerExtension.PendingMembers` | pkg/controllermanager/controller/extension.go:268-286 | A name of the after list is waited for exactly when it has a barrier and that barrier is not reached. Names without a barrier and reached barriers are passed over. |
| `ControllerExtension.AwaitPredecessors` | pkg/controllermanager/controller/extension.go:268-286 | The walk aborts exactly when a wait on some pending barrier is cancelled. Without an abort it waits on exactly the pending names, in order. With one it waits on a prefix of them that ends at the first cancelled wait. It never waits on a name without a barrier or with a reached barrier. |
| `ControllerExtension.Extension.StartController` | pkg/controllermanager/controller/extension.go:267-295 | A cancelled wait returns "setup aborted" and leaves every barrier as it was, whatever preparation would give. A controller listing itself in its after list while its own barrier is unreached always gets "setup aborted", since only its own start reaches that barrier. Otherwise the result is the preparation's result. Only a successful preparation reaches the controller's own barrier, and no other barrier changes. |
| `WebhookRegistration.WebhookRegistrationGroup.constructor` | pkg/controllermanager/webhook/reggrp.go:33-39 | A new group belongs to the given cluster, and its registration and declaration tables are empty. |
| `WebhookRegistration.WebhookRegistrationGroup.AddDeclarations` | pkg/controllermanager/webhook/reggrp.go:41-47 | Each kind's list becomes its old list followed by that kind's declarations in argument order. Kinds absent from the arguments keep their lists. The number of stored declarations grows by exactly the number passed. The group invariant (every list holds only declarations of its own kind) is kept. |
| `WebhookRegistration.AppendedPerKind` | pkg/controllermanager/webhook/reggrp.go:41-47 | After appending, each kind's list is its old list followed by the argument declarations of that kind, in order. A kind is present exactly when it was before or some argument has it. |
| `WebhookRegistration.AppendedLeavesOtherKinds` | pkg/controllermanager/webhook/reggrp.go:41-47 | A kind that no argument declaration has keeps its entry exactly, or stays absent. |
| `WebhookRegistration.StoredGrows` | pkg/controllermanager/webhook/reggrp.go:41-47 | The total number of stored declarations, over all kinds, grows by exactly the number of declarations appended. |
| `WebhookRegistration.AppendedWellGrouped` | pkg/controllermanager/webhook/reggrp.go:41-47 | If every list held only declarations of its own kind before appending, the same holds after. |
| `WebhookRegistration.WebhookRegistrationGroup.AddRegistrations` | pkg/controllermanager/webhook/reggrp.go:49-58 | Every given name maps to a set containing the kind. Every name keeps the kinds it had. Names not given are untouched. |
| `WebhookRegistration.RegisteredAt` | pkg/controllermanager/webhook/reggrp.go:49-58 | After registering, a name is present exactly when it was before or is among the names. Its kinds are the old ones, plus the registered kind when it is among the names. |
| `WebhookRegistration.RegisteredIdempotent` | pkg/controllermanager/webhook/reggrp.go:49-58 | Repeating a registration of the same kind under the same names leaves the table unchanged. |
| `WebhookRegistration.WebhookRegistrationGroups.GetOrCreateGroup` | pkg/controllermanager/webhook/reggrp.go:62-69 | An existing group under the cluster's id is returned, and the map is left unchanged. Otherwise a fresh, empty group of that cluster, satisfying the group invariant, is stored under the id and returned. |
| `WebhookRegistration.GetOrCreateGroupTwice` | pkg/controllermanager/webhook/reggrp.go:62-69 | Two lookups for the same cluster return the same group. Only that cluster's entry can have changed. |

## Left out

- Logging is not modelled. This covers the `Infof`/`Info` calls and the splitting of a registration's description into lines at lines 207-211 of `pkg/controllermanager/controller/extension.go`. None of it affects control flow.
- Group activation from the configured comma-separated list (`groups.Activate`) is not modelled. Its code is not part of this model, and its result is the `activated` input of `NewControllerExtension`.
- The requirement lookup (`GetRequiredControllers`), the registration lookup (`Registrations`), the cluster mappings (`GetMappingsFor`) and controller construction (`NewController`) are not modelled. Their code is not part of this model, so they are parameters. One parameter, `construct`, stands for both the mapping lookup and the construction. It returns either the first of their errors or the new controller's main cluster, and the controller's name is its registration's name.
- `ControllerExtension.Extension.Start`: the dependency ordering (`getOrder`) is a parameter, so no ordering or cycle detection is modelled or proved. Its code is not part of this model.
- `ControllerExtension.Extension.Start`: the group start (`startGroups`) is a parameter. It is the part of the start that runs controllers concurrently.
- `ControllerExtension.Extension.Start`: the shutdown waiter registered after the groups start (lines 247-252, with its 120-second bound) is not modelled. It is goroutine and timer behaviour.
- `ControllerExtension.Extension.StartController`: launching the run loop (line 294) is not modelled. It is a goroutine tied to the context.
- `ControllerExtension.Extension.StartController`: a wait that ends well does not mark the awaited barrier as reached in the model. In the program another controller's goroutine does that. If a name appears twice in an after list, the model waits on it twice, while the program passes the second occurrence. The outcome is the same.
- `ControllerExtension.Extension.StartController`: a controller that waits on its own unreached barrier blocks in the program until the context is cancelled; the model gives only that cancelled outcome and does not model the blocking.
- `ControllerExtension.Extension.StartController` requires a barrier for the controller's own name. The program dereferences that barrier unconditionally and would fail without one.
- The internals of a startup group are not shown. The model treats a group as an ordered list, and the lookup of a group by cluster as get-or-create.
- The rest of the extension type is not modelled: `ExtendConfig`, `Name`, `Namespace`, `GetContext`, `RequiredClusters`, `GetConfig`, `GetCluster` and `GetClusters`. These are accessors and configuration wiring with no rule to state.
- Webhook declarations are reduced to a kind and a name, and a cluster is reduced to its id. These are the only parts the tables use.
- The resource abstraction, the serializer helper, the demo webhook, the scheme registration and the process entry point are not part of this model. They are reflection, wiring or demonstration code without a stand-alone rule.
