# Route settings of the Mango VPN client, as a Dafny model

Mango's route settings screen edits a routing configuration: an ordered
list of rules, each with match criteria (domains, IPs, ports, source ports,
network, protocols) and an outbound. The screen itself is SwiftUI, but its
closures carry a handful of pure rules, and this project lifts each of them
into a function over `seq<string>` or `string` and proves what it does:

- **Text** — Foundation's `trimmingCharacters(in: .whitespacesAndNewlines)`,
  `components(separatedBy:)` and `joined(separator:)` with their exact edge
  cases (splitting `""` gives `[""]`, joining `[]` gives `""`), and array
  `removeAll(where:)`.
- **ListEdits** — `remove(atOffsets:)` and `move(fromOffsets:toOffset:)`,
  used on the rule list and on every string list.
- **StringList** — the list editor's add rule: trim, then append only when
  non-empty and not yet present.
- **PortLens** — `port`/`sourcePort` are stored comma-joined and edited as a
  list: split and drop empty tokens to read, join to write.
- **Network** — the TCP/UDP toggles on the comma-joined `network` string:
  "tcp" is put in front, "udp" at the back.
- **Protocol** — the HTTP/TLS/BitTorrent toggles on the `protocol` array:
  remove every copy, append when switched on.
- **Rules** — the `Rule` entity, the rule editor's actions as an `Edit`
  datatype applied to a rule, and the rule-list edits (add, delete, move).
- **Reconcile** — after saving, the tunnel is stopped and restarted after
  500 ms only when its status is present and `connected`.

Because of the split semantics, the network string can pick up empty
components: switching TCP on for `""` stores `"tcp,"`, then UDP on gives
`"tcp,,udp"`, then TCP off gives `",udp"` — not `"udp"`, which is what a
reader of the toggles might expect (`Network.ToggleSequenceFromEmpty`). The
model follows the code. The network properties are therefore stated about
membership and position among the components, not about clean strings.
Likewise the code checks no port syntax and lets a comma typed into a port
value split it into several tokens; the model follows the code there too.

## Model

| member | source | states |
|---|---|---|
| Text.Trim | Mango/Setting/Route/MGRouteSettingView.swift:241 | the trimmed value is empty or has non-whitespace at both ends, and is no longer than the typed text |
| Text.TrimInfix | Mango/Setting/Route/MGRouteSettingView.swift:241 | the trimmed value is the part of the typed text after the leading whitespace, and only whitespace and newlines follow it |
| Text.TrimIdempotent | Mango/Setting/Route/MGRouteSettingView.swift:241 | trimming an already trimmed value changes nothing |
| Text.TrimEmptyIff | Mango/Setting/Route/MGRouteSettingView.swift:241-242 | the trimmed value is empty exactly when the typed text is all whitespace and newlines |
| Text.Split | Mango/Setting/Route/MGRouteSettingView.swift:116 | splitting on a separator yields at least one component and no component contains the separator |
| Text.Join | Mango/Setting/Route/MGRouteSettingView.swift:118 | joining no pieces gives the empty string, and otherwise the join starts with the first piece |
| Text.JoinCountsSeparators | Mango/Setting/Route/MGRouteSettingView.swift:118 | separator-free pieces are joined with exactly one separator between neighbours, one fewer than there are pieces |
| Text.JoinSplit | Mango/Setting/Route/MGRouteSettingView.swift:137-142 | joining the components of a string with the separator gives back the string |
| Text.SplitJoin | Mango/Setting/Route/MGRouteSettingView.swift:115-119 | splitting a join of separator-free pieces gives back the pieces, except that the empty list comes back as one empty component |
| Text.RemoveAll | Mango/Setting/Route/MGRouteSettingView.swift:138 | after removing every copy of a value it is absent and every other value keeps its multiplicity |
| Text.RemoveAllAppend | Mango/Setting/Route/MGRouteSettingView.swift:138 | removal distributes over concatenation, so the remaining elements keep their relative order |
| Text.RemoveAllKeepsOthers | Mango/Setting/Route/MGRouteSettingView.swift:138 | every value other than the removed one is present afterwards exactly when it was present before |
| Text.RemoveAllIdempotent | Mango/Setting/Route/MGRouteSettingView.swift:161 | removing the same value twice is removing it once |
| ListEdits.RemoveAt | Mango/Setting/Route/MGRouteSettingView.swift:53 | deleting at a set of valid offsets shortens the list by the number of offsets |
| ListEdits.RemoveAtFrom | Mango/Setting/Route/MGRouteSettingView.swift:53 | every survivor of a delete is the element of some non-deleted position |
| ListEdits.RemoveAtKeepsOrder | Mango/Setting/Route/MGRouteSettingView.swift:53 | every element at a non-deleted position survives, moved up by the number of deleted positions before it, so the survivors are exactly the non-deleted rows in their original order |
| ListEdits.RemoveOne | Mango/Setting/Route/MGRouteSettingView.swift:53 | deleting one row gives the rows before it followed by the rows after it |
| ListEdits.RemoveAtNoDup | Mango/Setting/Route/MGRouteSettingView.swift:228 | deleting rows from a list without duplicates leaves it without duplicates |
| ListEdits.Move | Mango/Setting/Route/MGRouteSettingView.swift:50 | a move keeps the length and the multiset of elements: it is a permutation |
| ListEdits.MoveKeepsBefore | Mango/Setting/Route/MGRouteSettingView.swift:50 | an unmoved row above the destination moves up by the number of moved rows above it |
| ListEdits.MoveKeepsAfter | Mango/Setting/Route/MGRouteSettingView.swift:50 | an unmoved row at or below the destination keeps its place among the unmoved rows, after the whole moved block |
| ListEdits.MoveBlock | Mango/Setting/Route/MGRouteSettingView.swift:50 | the moved rows form one block in their original order, starting at the destination less the moved rows above it |
| ListEdits.MoveNoDup | Mango/Setting/Route/MGRouteSettingView.swift:225 | moving rows of a list without duplicates leaves it without duplicates |
| StringList.Add | Mango/Setting/Route/MGRouteSettingView.swift:241-244 | the list grows by one exactly when the trimmed value is non-empty and absent, and then the trimmed value is the new last element; otherwise the list is unchanged; a non-empty trimmed value is always present afterwards; a list with no duplicates and no empty or untrimmed entries keeps that property |
| StringList.AddIdempotent | Mango/Setting/Route/MGRouteSettingView.swift:241-244 | adding the same text twice is adding it once |
| StringList.AddTwiceKeepsOneCopy | Mango/Setting/Route/MGRouteSettingView.swift:242-243 | adding a new value twice, however padded, leaves exactly one copy of it |
| StringList.RemovePreservesClean | Mango/Setting/Route/MGRouteSettingView.swift:228 | swipe-to-delete keeps the list free of duplicates and of empty or untrimmed entries |
| StringList.MovePreservesClean | Mango/Setting/Route/MGRouteSettingView.swift:225 | drag-to-move keeps the list free of duplicates and of empty or untrimmed entries |
| PortLens.Get | Mango/Setting/Route/MGRouteSettingView.swift:116 | the port getter never yields an empty token or a token containing a comma |
| PortLens.Set | Mango/Setting/Route/MGRouteSettingView.swift:117-118 | the setter stores "" for the empty list, and for non-empty, comma-free tokens a string whose comma-separated components are exactly those tokens |
| PortLens.GetSet | Mango/Setting/Route/MGRouteSettingView.swift:115-119 | setting a list of non-empty, comma-free tokens and getting it back returns the same list, the empty list included |
| PortLens.GetSetGet | Mango/Setting/Route/MGRouteSettingView.swift:124-128 | getting, setting and getting again shows the same list |
| PortLens.SetGet | Mango/Setting/Route/MGRouteSettingView.swift:124-128 | a stored string with no empty token, or the empty string, is stored back unchanged after a get and a set |
| PortLens.AddThroughLens | Mango/Setting/Route/MGRouteSettingView.swift:115-119 | adding a comma-free value through the port lens stores a string whose list is exactly the add rule's result |
| Network.Has | Mango/Setting/Route/MGRouteSettingView.swift:134-135 | a network toggle reads on exactly when the setter's removal of its token would change the components, and never for a token containing a comma |
| Network.TcpComponents | Mango/Setting/Route/MGRouteSettingView.swift:137-142 | after the TCP setter the components are "tcp" followed by the other components when on, and the other components alone (one empty component if none) when off |
| Network.UdpComponents | Mango/Setting/Route/MGRouteSettingView.swift:147-152 | after the UDP setter the components are the other components followed by "udp" when on, and the other components alone when off |
| Network.SetTcp | Mango/Setting/Route/MGRouteSettingView.swift:136-143 | after setting TCP to v the TCP getter reads v, the UDP getter is unchanged, and when v holds "tcp" is the first component |
| Network.SetUdp | Mango/Setting/Route/MGRouteSettingView.swift:146-153 | after setting UDP to v the UDP getter reads v, the TCP getter is unchanged, and when v holds "udp" is the last component |
| Network.SetTcpIdempotent | Mango/Setting/Route/MGRouteSettingView.swift:137-142 | setting TCP to the same value twice stores the same string as setting it once, the empty string included |
| Network.SetUdpIdempotent | Mango/Setting/Route/MGRouteSettingView.swift:147-152 | setting UDP to the same value twice stores the same string as setting it once, the empty string included |
| Network.SetOffWhenAbsent | Mango/Setting/Route/MGRouteSettingView.swift:137-152 | switching a toggle off whose token is absent stores the string unchanged |
| Network.TcpThenUdpOrder | Mango/Setting/Route/MGRouteSettingView.swift:134-153 | switching TCP on and then UDP puts "tcp" first and "udp" last |
| Network.UdpThenTcpOrder | Mango/Setting/Route/MGRouteSettingView.swift:134-153 | switching UDP on and then TCP also puts "tcp" first and "udp" last |
| Network.ToggleSequenceFromEmpty | Mango/Setting/Route/MGRouteSettingView.swift:134-153 | from an empty field, TCP on, UDP on, TCP off store "tcp,", "tcp,,udp" and ",udp" |
| Protocol.Has | Mango/Setting/Route/MGRouteSettingView.swift:158-159 | a protocol toggle reads on exactly when the setter's removal of its token would change the array |
| Protocol.Set | Mango/Setting/Route/MGRouteSettingView.swift:158-181 | the getter afterwards reads the value set; switched on, the token occurs exactly once, at the end; the other entries keep their order and multiplicity |
| Protocol.SetKeepsOtherToggles | Mango/Setting/Route/MGRouteSettingView.swift:158-181 | switching one protocol leaves the getters of the other two unchanged |
| Protocol.SetIdempotent | Mango/Setting/Route/MGRouteSettingView.swift:158-181 | switching a protocol to the same value twice is switching it once, in both directions |
| Protocol.SetOffWhenAbsent | Mango/Setting/Route/MGRouteSettingView.swift:161-164 | switching off an absent protocol changes nothing |
| Protocol.SwitchOnOrder | Mango/Setting/Route/MGRouteSettingView.swift:158-181 | switching two protocols on one after the other, from any array, keeps every other entry in order and puts the two last, in the order they were switched on |
| Protocol.SwitchOnFromEmpty | Mango/Setting/Route/MGRouteSettingView.swift:158-181 | from an empty array, two protocols switched on are exactly those two, in order |
| Rules.Apply | Mango/Setting/Route/MGRouteSettingView.swift:105-181 | a toggle action changes only its own field: the toggled getter reads the new value, the other network getter reads as before, the other protocol entries keep their order and multiplicity, and the list fields are untouched |
| Rules.RejectedAddIsNoOp | Mango/Setting/Route/MGRouteSettingView.swift:240-244 | "Done" with a value that trims to nothing or is already listed leaves the rule unchanged, the stored port and source-port strings included, since the list is never mutated and the field's setter never runs |
| Rules.ApplyKeepsIdentity | Mango/Setting/Route/MGRouteSettingView.swift:105-181 | no list, network or protocol action of the rule editor changes the rule's identity, name or enabled flag |
| Rules.ListEditTouchesOneField | Mango/Setting/Route/MGRouteSettingView.swift:105-131 | a list action on one field leaves the other list fields, the network and the protocols unchanged |
| Rules.OffsetEditKeepsWellFormed | Mango/Setting/Route/MGRouteSettingView.swift:115-128 | deleting or moving port rows keeps every token non-empty and comma-free |
| Rules.ListEditShowsResult | Mango/Setting/Route/MGRouteSettingView.swift:105-128 | after a list action the editor shows exactly the list rule's result, for domains and IPs always and for ports unless an added value contains a comma |
| Rules.ApplyKeepsClean | Mango/Setting/Route/MGRouteSettingView.swift:105-110 | every editor action keeps the domain and IP lists free of duplicates and of empty or untrimmed entries |
| Rules.ApplyAllKeepsClean | Mango/Setting/Route/MGRouteSettingView.swift:105-110 | any sequence of editor actions keeps the domain and IP lists clean and the rule's identity unchanged |
| Rules.AddRule | Mango/Setting/Route/MGRouteSettingView.swift:55-58 | adding a rule increases the length by one, keeps the existing rules as a prefix and puts the new rule last |
| Rules.AddThenDeleteRestores | Mango/Setting/Route/MGRouteSettingView.swift:52-58 | deleting the rule just added gives back the original list |
| Rules.EditRuleAt | Mango/Setting/Route/MGRouteSettingView.swift:29-31 | editing one rule through its editor puts the edited rule in its place, leaves every other rule unchanged and every identity in place |
| Rules.RuleEditsKeepRules | Mango/Setting/Route/MGRouteSettingView.swift:49-54 | every rule after a delete or a move is one of the rules before it |
| Reconcile.Plan | Mango/Setting/Route/MGRouteSettingView.swift:74-85 | requests are issued exactly when the status is present and connected; then there is a stop, exactly one, and exactly one start, the stop before the start with at least 500 ms of pause between them |
| Reconcile.PlanOutcome | Mango/Setting/Route/MGRouteSettingView.swift:77-84 | under the simplified `Reconcile.Run`: a connected tunnel is started exactly once, with no retry, so it ends connected when the restart succeeds and stopped when it fails; in any other state it is left as it is |

## Left out

- The pickers for `domainStrategy` and `domainMatcher` (global and per rule), the outbound picker, the name field (line 196) and the enabled toggle (line 198): plain field assignments with no logic, outside the `Rules.Edit` actions, so `Rule` has no matcher or outbound field.
- `MGRouteModel`, `MGRouteViewModel.save` and `MGPacketTunnelManager` are not part of this model: the new rule of "Add rule" (with its freshly generated identity and defaults) is a parameter of `Rules.AddRule`, persistence is not modelled, and the tunnel's reaction to stop and start is a simplified stand-in, `Reconcile.Run`, in which a stop goes straight to disconnected.
- The detached `Task`, the actual 500 ms sleep, the caught error and its `debugPrint`: concurrency and I/O; only the decision and the order of requests are modelled, with the pause as a `Sleep` command.
- Swift's `String` equality and `contains` compare by Unicode canonical equivalence, and Foundation's splitting works on UTF-16; the model compares and splits Unicode scalars exactly. The whitespace set of `Text.IsWhitespace` is the Unicode space separators (Zs), the tab and the newline controls; Foundation's own `whitespacesAndNewlines` table is not part of this model and may differ at the edges (for instance on U+200B).
- Offsets outside the list trap in Swift; the model states them away as preconditions (`ListEdits.ValidOffsets`), since SwiftUI only hands out offsets of existing rows.
- SwiftUI layout, navigation, the edit button's disabled state and the alert's `value = ""` reset: presentation state.
- Moving rows back with an inverse move is not stated as a lemma; `ListEdits.MoveKeepsBefore`, `ListEdits.MoveKeepsAfter` and `ListEdits.MoveBlock` fix the position of every row after a move instead.
