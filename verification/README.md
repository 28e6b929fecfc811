# LABaPe: a verified model of its core protocols

LABaPe deploys lab environments on KVM hosts. This project models the parts of it whose promises are
about every input, every run or every crash, and proves those promises with Dafny. Each module follows
one part of the program:

| modules | part of LABaPe |
|---|---|
| `Bytes`, `Seal`, `SealProofs` | the sealed backup stream: chunking, framing, nonces, opening |
| `Text`, `Digits`, `Guacamole`, `GuacamoleLoop`, `GuacamoleRelay` | the Guacamole instruction codec, the handshake's reader and the relay to the browser |
| `Ipv4`, `NetPolicy`, `EngineNetworks`, `NetworkCatalog`, `Allocations`, `IpPolicyCheck`, `AllocatedPlans`, `RefusedPlans` | network catalog rules and changes, static address allocation, the engine's independent checks, and the two together |
| `ConsoleAccess`, `ConsoleSessions` | the console's call limit and its rolling output buffer |
| `Leases` | environment leases: reminders, shutdown, destroy, extension |
| `SecretStore` | the secret store: data keys, their cache, the master key's rotation, and secrets kept elsewhere |
| `VmPasswords` | the hand-over of each VM's own Administrator password, across crashes, and its other accounts' |
| `Links` | linking two stacks with a one-time code, as steps of a distributed protocol |
| `CatalogClosure` | what a catalog export takes along |
| `DirectoryObjects` | the organizational units to create, and their order |
| `Wrappers`, `Sequences` | shared helpers: optional values, and lists that hold each thing once |

How the model is put together:

- Code that changes things step by step is a method over a class, proved equal to a function of the old
  state; the promises are lemmas about those functions, over whole runs.
- Cryptography is ideal. An AEAD opens only what is in its log, for the same key, salt, nonce and flag;
  Fernet tokens open under the key they were made with; a hash is equal only for equal tokens. Random
  values are parameters, assumed fresh where the code relies on it.
- A protocol that can stop anywhere is a sequence of atomic steps (one per commit, file or VM change, and one
  per check that a later commit relies on).
  A crash is the end of a prefix of such a sequence, so what holds after every legal sequence holds at
  every crash point. The methods of `VmPasswords.Deploys` and `Links.Stacks` make exactly such steps.

## What the code does that its documentation doesn't say

Each is a lemma with the inputs that show it, beside the exact condition under which the promise holds; where
only one direction is proved, it says so.

- `app/labape/seal.py:9-11` says an extended or changed archive fails to open. The last chunk's length
  field isn't authenticated and `_read` stops quietly at the end of the stream, so an archive whose last
  length field claims too much still opens, to the right plaintext (`SealProofs.OverclaimStillOpens`). An
  input that opens is byte for byte what was sealed exactly when its length fields fit in what follows
  them (`SealProofs.ExactWhenFramesFit`).
- `_read_instruction` drops as much text as the instruction would print to. That is right exactly when
  guacd writes its lengths plainly; a length such as `01` leaves a piece behind
  (`Guacamole.LeavesTheRest`, `Guacamole.PaddedLengthLeavesText`).
- A negative length sends `parse` back in its text, where it may read for ever: `0.,-4.x` never ends
  (`GuacamoleLoop.NegativeLengthLoops`). It ends exactly when no two turns start at one place, and then
  within a turn for each character and one more (`GuacamoleLoop.EndsExactly`).
- `encode()` of no elements prints `;`, which doesn't read back (`Guacamole.NoElementsDontReadBack`).
- `validate_network` accepts a range with nothing after its dash (`172.21.50.1-`), which the engine
  refuses (`EngineNetworks.TrailingDashDiffers`). The engine accepts what the app accepted exactly when no
  range is written so (`EngineNetworks.EngineAcceptsValidated`).
- Static pools aren't compared with each other: listing every pool twice is accepted
  (`NetPolicy.DoubledPoolsAccepted`, `NetPolicy.DoubledPoolsShare`). When an address is in two pools, an
  allocation can run into the table's unique constraint, and it never does exactly when none is
  (`Allocations.NeverClashes`).
- `allocate` looks only at the rows from before the call, so a name that comes twice in one call gets two
  addresses (`Allocations.RepeatedNameGetsTwo`). A call leaves each VM with one exactly when it repeats no
  name that had none (`Allocations.OneEachExactly`).
- A network can't be renamed where it is: under its new name its own entry counts as another network's, and
  the overlap is refused (`NetworkCatalog.KeepingTheBlockCantRename`). A rename to a free name is taken exactly
  when no address is allocated on the network and the new entry is consistent and shares no address with any
  entry, its own included (`NetworkCatalog.RenamesExactly`).
- A redeploy can be one the app goes along with and the engine refuses. `allocate` keeps a VM's address though its
  network no longer hands it out (`RefusedPlans.NarrowedPoolIsRefused`); and `profile_host_groups` looks a VM's
  address up by name over all networks, so a VM with rows on two can be answered the one and deployed with the
  other (`RefusedPlans.SecondNetworkIsRefused`). The engine passes a deploy's plan exactly when each static VM's
  address read back is one its network hands out, and no two are the same (`AllocatedPlans.DeployedPlanPasses`).
  What is read back is settled by the table from before the deploy (`AllocatedPlans.ReadsFromBefore`).
- A rotation of a VM's Administrator password leaves a pending one alone. When a deploy stopped between storing the
  VM's own password and clearing the pending one, the next `promote` after a rotation stores the old one over
  the one the VM has (`VmPasswords.LateRotationLosesPassword`). A rotation keeps what is known about the VM's
  password exactly when nothing is pending for it (`VmPasswords.RotateKeepsExactly`).
- `app/labape/links.py:9` says a code is good once. `accept` doesn't lock the invite between its check and its
  commit, so two stacks that post one code at the same time are both linked (`Links.OneCodeTwoJoiners`). A
  code is accepted twice only when two accepts of it overlap (`Links.CodesAreGoodOnce`), and whenever two
  do, nothing stops both (`Links.OverlapAcceptsTwice`).
- Two stacks that join each other at the same time end up with records of each other and tokens neither
  accepts (`Links.OverlapMismatches`); the tokens match in every run where a pair's handshakes and
  removals don't overlap (`Links.TokensMatch`). That is one direction: an overlap may also end well.
- `ou_dns` takes every `OU=` component of a reference as coming before every other component, so a
  reference that starts with `CN=` adds a DN it doesn't name (`DirectoryObjects.LeadingComponentMisplaced`).
  It adds the DN referred to exactly when the reference's OUs do come first, with something after them
  (`DirectoryObjects.AddsItselfExactly`).

## Model

| member | source | states |
|---|---|---|
| Bytes.BE32 | app/labape/seal.py:80-81 | a four-byte big-endian field reads back as the number packed |
| Bytes.BigEndian | app/labape/seal.py:80-81 | a field is a number exactly when its bytes, the most significant first, add up to it |
| Bytes.Source.ReadFully | app/labape/seal.py:60-67 | however the stream splits its reads, the first n bytes, or all there are, and the rest stays |
| Seal.SealStream | app/labape/seal.py:70-86 | for any plaintext and any split of reads: exactly the archive's bytes are written, exactly its chunks are logged, the plaintext's length is returned, or the counter overflows |
| Seal.UnsealFrames | app/labape/seal.py:96-117 | the chunk loop writes and ends as the recursive reading of the frames says |
| Seal.UnsealStream | app/labape/seal.py:89-117 | for any input: what is written and how it ends, and on success nothing is left unread and the total is what was written |
| SealProofs.OpensExactlyArchives | app/labape/seal.py:6-11 | over every history of seal calls with distinct draws, stopped halfway or not: an input opens exactly when it is the archive of one of the key's calls that got to its end (but for an overclaiming last length), to that plaintext; otherwise only a prefix of a sealed plaintext is written |
| SealProofs.RoundTrip | app/labape/seal.py:70-117 | unseal(seal(p)) is p, empty and whole-chunk plaintexts included |
| SealProofs.SealThenUnseal | app/labape/seal.py:70-117 | sealing and then unsealing over streams with arbitrary short reads returns the plaintext and equal totals |
| SealProofs.ExactWhenFramesFit | app/labape/seal.py:98-101 | an input that opens is byte for byte a sealed archive exactly when its length fields fit |
| SealProofs.OverclaimStillOpens | app/labape/seal.py:101-117 | a raised last length field makes an archive nobody sealed, which opens |
| SealProofs.DamageIsRefused | app/labape/seal.py:9-11 | under an archive's header, anything that opens differs from it in the last length field only, and only a prefix of its plaintext is ever written |
| SealProofs.CutOrExtendedIsRefused | app/labape/seal.py:97-117 | a cut or extended archive never opens, and what was written by then is a prefix |
| SealProofs.SealedIsChunks | app/labape/seal.py:75-86 | max(1, ceil(len / CHUNK)) frames, numbered in order, of which only the last carries the last flag |
| Digits.IntOfDec | app/labape/remote.py:44-57 | int() reads back what str() printed |
| Digits.IntOfIsLonger | app/labape/remote.py:57 | text int() reads as n is no shorter than str(n), and as short only when it is str(n) |
| Digits.IntOfReads | app/labape/remote.py:57 | int() reads a sign or none and groups of digits with single underscores between them, with white space around that has no separator in it, as that number |
| Digits.IntOfReadsOnly | app/labape/remote.py:57 | and nothing else |
| Guacamole.ParseInstruction | app/labape/remote.py:51-71 | on text without negative lengths, the inner loop reads one instruction, or finds it unfinished or faulty, as the recursive reading does; a negative length is reported |
| Guacamole.ParseText | app/labape/remote.py:47-71 | likewise the nested loops return what reading instruction after instruction gives |
| GuacamoleLoop.LoopIsParse | app/labape/remote.py:47-71 | run turn by turn as Python does on any text, the loop returns or raises what Parse says, or gets to a negative length, in at most a turn for each character and one more |
| GuacamoleLoop.EndsExactly | app/labape/remote.py:51-71 | on any text, negative lengths included, the loop ends exactly when no two turns start reading at one place, and exactly when it has after a turn for each character and one more |
| GuacamoleLoop.RunLoop | app/labape/remote.py:47-71 | parse on any text, with Python's slices and indices from the end: what it returns or raises, or that it never does; without negative lengths, what Parse says |
| GuacamoleLoop.NegativeLengthLoops | app/labape/remote.py:56-65 | a field of length -4 sends the loop back to itself for ever |
| GuacamoleLoop.TurnGoesBack | app/labape/remote.py:61-71 | a length that leads back from the end: which separator and value are read, and where the loop goes on |
| GuacamoleLoop.TurnRaisesIndex | app/labape/remote.py:61-65 | one that leads before the start of the text raises, and nothing else does so |
| GuacamoleLoop.SliceFromEnd | app/labape/remote.py:55-64 | Python's slices with bounds from the end |
| Guacamole.CompletePrefix | app/labape/remote.py:74-77 | the two parts are the text, the first parses whole with nothing left, the second is what parse leaves |
| Guacamole.EncodeJoins | app/labape/remote.py:42-44 | what encode prints is its fields joined with commas, and a semicolon |
| Guacamole.ParseContinues | app/labape/remote.py:47-71 | parsing more text goes on from what the text so far left over; a fault stays a fault |
| Guacamole.ParseWholePart | app/labape/remote.py:74-77 | the whole part parses by itself to the same instructions, and the rest to none |
| Guacamole.ReadEncoded | app/labape/remote.py:42-71 | a printed instruction reads back, whatever text its elements hold and whatever follows it |
| Guacamole.ParseInvertsEncode | app/labape/remote.py:42-71 | parsing concatenated printed instructions returns them, with nothing left |
| Guacamole.ParsePrefix | app/labape/remote.py:47-71 | the first c characters of printed instructions parse to exactly the instructions whole in them, and leave the rest |
| Guacamole.NoElementsDontReadBack | app/labape/remote.py:42-60 | the text of an instruction without elements is never read as an instruction |
| Guacamole.PrintsNoLonger | app/labape/remote.py:430-432 | an instruction prints to no more text than it was read from, and to as much exactly when its lengths are plain |
| Guacamole.LeavesTheRest | app/labape/remote.py:430-433 | dropping its printed length leaves exactly the text after it, exactly when its lengths are plain |
| Guacamole.EncodedIsPlain | app/labape/remote.py:42-44 | what encode prints has plain lengths, so nothing of what follows is lost |
| Guacamole.PaddedLengthLeavesText | app/labape/remote.py:430-433 | a length written 01 leaves a piece of its instruction in the buffer |
| GuacamoleRelay.TakeInstruction | app/labape/remote.py:426-437 | reads until an instruction is whole and no further, the connection ends or parse raises; what is left in the buffer, in each case |
| GuacamoleRelay.TakesPrinted | app/labape/remote.py:426-437 | what the peer printed is taken one by one with nothing lost |
| GuacamoleRelay.FindError | app/labape/remote.py:489-491 | the first error instruction of a message, or that there is none |
| GuacamoleRelay.PrintedErrors | app/labape/remote.py:489-491 | of what guacd printed, the first instruction with the opcode error is reported, by its first argument or as "error" if it has none, and without one nothing is |
| GuacamoleRelay.ForwardWhole | app/labape/remote.py:485-488 | the whole part of the buffer is sent as one message, if there is one, and the rest stays |
| GuacamoleRelay.SendsWhole | app/labape/remote.py:74-77 | that keeps messages plus pending text equal to the text received, and their instructions those of parsing it at once |
| GuacamoleRelay.ReadsAreRelayed | app/labape/remote.py:466-488 | after any reads, what was sent and is pending accounts for all their text: only whole instructions are sent, nothing is lost or added |
| GuacamoleRelay.RelayFromGuacd | app/labape/remote.py:466-491 | each read's whole instructions are sent before the next read, also when parse raises on a later one; it ends with the first message of guacd's that has an error instruction, at a fault, or at the end |
| GuacamoleRelay.SplitsDontMatter | app/labape/remote.py:479-491 | however the text is split over reads, the same text and instructions are sent and the same text is pending |
| Ipv4.ParseShow | app/labape/netpolicy.py:153-158 | an address's text reads back as it |
| Ipv4.ShowParse | scripts/lib/labape_networks.py:69 | an address has one text: equal addresses in the plan have equal text |
| Ipv4.BlockSharesPrefix | app/labape/netpolicy.py:59-68 | a block is the addresses that agree with it in the leading bits |
| Ipv4.OverlapIsSharedAddress | app/labape/netpolicy.py:98-101 | blocks overlap exactly when an address is in both |
| NetPolicy.ListCandidates | app/labape/netpolicy.py:146-158 | the generator's loops yield the eligible addresses of the pools, in order |
| NetPolicy.CandidatesAre | app/labape/netpolicy.py:146-158 | an address is yielded exactly when it is in a pool and not network, broadcast, gateway, DHCP's or reserved |
| NetPolicy.CandidatesDistinct | app/labape/netpolicy.py:151-158 | no address is yielded twice exactly when no eligible address is in two pools |
| NetPolicy.ValidatedCandidates | app/labape/netpolicy.py:56-97 | on an accepted entry the pools already avoid gateway, DHCP and reserved addresses |
| NetPolicy.DoubledPoolsAccepted | app/labape/netpolicy.py:87-97 | an accepted entry is still accepted with every pool listed twice |
| NetPolicy.DoubledPoolsShare | app/labape/netpolicy.py:87-97 | the pools then share an address that may be handed out, if there is any |
| NetPolicy.NetworksShareNoAddress | app/labape/netpolicy.py:98-101 | an accepted entry shares no address with any other network |
| NetPolicy.SliceCandidates | app/labape/api/networks.py:157-164 | an accepted host slice hands out only addresses of the whole pools |
| NetPolicy.LeftOutGateway | app/labape/netpolicy.py:64 | leaving the gateway out is writing the first address of the block: the check and what is handed out are the same; a block without one is refused |
| NetPolicy.GatewayIsKept | app/labape/netpolicy.py:146-156 | the gateway, written out or the block's first address, is never handed out |
| NetPolicy.AcceptedMeans | app/labape/netpolicy.py:56-101 | an entry is accepted exactly when everything in it parses, a mode is chosen, static has a pool, and, address by address: the ranges are in the block, no pool's address is DHCP's, reserved or the gateway, and none is another entry's |
| NetPolicy.FaultIsReal | app/labape/netpolicy.py:56-101 | the field a refusal names is one that something is wrong with |
| NetPolicy.WrittenRangeReads | app/labape/netpolicy.py:31-41 | two addresses with a dash between them, and white space anywhere around, read as the range they are unless it ends before it starts; one address reads as itself alone |
| NetPolicy.ShownRangeReads | app/labape/netpolicy.py:52-53 | what messages show of a range reads as that range |
| EngineNetworks.RangesAgree | scripts/lib/labape_networks.py:38-48 | the two readings of a range's text agree but for a trailing dash |
| EngineNetworks.TrailingDashDiffers | app/labape/netpolicy.py:31-41 | any address with a dash after it is a range to the app and none to the engine |
| EngineNetworks.CandidatesHaveNoProblem | scripts/lib/labape_networks.py:67-81 | on a network the engine accepts, with a pool, the addresses handed out are exactly those static_problem has nothing against |
| EngineNetworks.EngineAcceptsValidated | scripts/lib/labape_networks.py:88-119 | the engine accepts an entry and slice the app accepted exactly when no range has a trailing dash |
| EngineNetworks.EngineTakesExactly | scripts/lib/labape_networks.py:88-119 | what _network takes, address by address: as the app, but also without a mode or a pool, and with the gateway in a pool |
| EngineNetworks.EngineReads | scripts/lib/labape_networks.py:88-119 | what it makes of an entry is what is written there, read as the app reads it; no mode means static |
| EngineNetworks.ObjectsExactly | scripts/lib/labape_networks.py:67-81 | on any network the engine takes, pools or not: exactly which addresses static_problem has nothing against, and each objection is for its reason |
| EngineNetworks.EngineKeepsGateway | scripts/lib/labape_networks.py:73-74 | static_problem always objects to the gateway, and a gateway left out is the block's first address |
| Allocations.Table.Allocate | app/labape/netpolicy.py:161-178 | the new table and the outcome of one call on one network, rolled back when it raises |
| Allocations.Table.Release | app/labape/netpolicy.py:181-185 | exactly the environment's rows go, on every network, and their number is returned |
| Allocations.ReleasedOnEach | app/labape/netpolicy.py:181-185 | what that does to each network's rows |
| Allocations.AllocatedOnEach | app/labape/netpolicy.py:161-178 | a call changes its own network's rows as said of it, and no other's |
| Allocations.EachNetworkRuns | app/labape/netpolicy.py:161-185 | over every run of calls on any networks, each network's rows are those of the run of its own calls |
| Allocations.EveryRun | app/labape/netpolicy.py:161-185 | over every run of calls: no address is held twice, all held are candidates, and each VM holds one when no call repeats a name |
| Allocations.AddressIsKept | app/labape/netpolicy.py:162-172 | in every run, a VM's address stays until its environment is released, whatever else is called |
| Allocations.KeptAddressIsGiven | app/labape/netpolicy.py:166-172 | and until then, when no call repeats a name, every call for the VM that succeeds gives it back |
| Allocations.OneEachExactly | app/labape/netpolicy.py:165-178 | a successful call leaves each VM with one address exactly when it repeats no name that had none |
| Allocations.RepeatedNameGetsTwo | app/labape/netpolicy.py:166-177 | a new name that comes twice in a call gets two addresses |
| Allocations.GivenAreHeld | app/labape/netpolicy.py:167-178 | each name is given the address it holds afterwards, its old one if it had one |
| Allocations.RefusesExactly | app/labape/netpolicy.py:168-175 | with distinct candidates a call is refused exactly when fewer are free than VMs need, and never for another reason |
| Allocations.NamesFirstLeftOut | app/labape/netpolicy.py:173-175 | the VM a refusal names is the first that no free address is left for |
| Allocations.FirstFreeIsGiven | app/labape/netpolicy.py:167-177 | addresses are handed out in order: every candidate before the one a VM gets was taken by then |
| Allocations.NeverClashes | app/labape/netpolicy.py:87-97 | the unique constraint is never hit, for any table and request, exactly when no eligible address is in two pools |
| Allocations.NetworkAllocations | app/labape/netpolicy.py:146-185 | one network with any hosts' slices and any run: every held address is in the pools and eligible, and no two are the same |
| Allocations.NewAddressesHaveNoProblem | scripts/lib/labape_networks.py:67-119 | on an accepted entry and slice without trailing dashes, _network takes the same fields and static_problem has nothing against any address newly handed out |
| IpPolicyCheck.Check | scripts/lib/check_ip_policy.py:50-86 | the loop's errors, warnings and exit code, VM by VM |
| IpPolicyCheck.ComplaintsAre | scripts/lib/check_ip_policy.py:50-78 | each complaint about a VM is made exactly when there is that reason for it, a shared address naming the last VM before it that has it |
| IpPolicyCheck.AbsentModeIsStatic | scripts/lib/check_ip_policy.py:54 | a VM without an addressing mode is checked as a static one |
| IpPolicyCheck.StopsAt | scripts/lib/check_ip_policy.py:61-67 | the check raises exactly at a static VM on a known network whose address is no address's text |
| IpPolicyCheck.PassesExactly | scripts/lib/check_ip_policy.py:50-86 | the plan passes exactly when every VM it creates is on a known network that allows its mode, is unobjectionable and not taken by an earlier one if static, and is static if a domain controller |
| IpPolicyCheck.CreatedDontShare | scripts/lib/check_ip_policy.py:70-72 | no two static VMs a passed plan creates have one address |
| NetworkCatalog.EveryCatalog | app/labape/api/networks.py:79-123 | whatever admins create, change and delete: every entry is consistent, and no two networks share an address |
| NetworkCatalog.AcceptedExactly | app/labape/netpolicy.py:56-101 | the check accepts an entry exactly when it is consistent by itself and shares no address with an entry of another name |
| NetworkCatalog.AppliedReads | app/labape/api/networks.py:79-123 | an accepted entry is what its name gives from then on, a network with allocated addresses is neither renamed nor deleted, one without is deleted when asked, and no other name is touched |
| NetworkCatalog.AcceptedEntryStays | app/labape/api/networks.py:79-123 | over every run, an accepted entry stays what its name gives until a change is about that name |
| NetworkCatalog.RenamesExactly | app/labape/api/networks.py:93-107 | a change to a free name is taken exactly when no address is allocated on the network, and the new entry is consistent and shares no address with any entry, its own old one included |
| NetworkCatalog.KeepingTheBlockCantRename | app/labape/netpolicy.py:98-101 | a new name for the same block is refused |
| NetworkCatalog.LoadAccepts | scripts/lib/labape_networks.py:122-134 | the engine loads what the app writes for a host from a consistent catalog exactly when no range has a trailing dash, network by network as written |
| NetworkCatalog.LoadsExactly | scripts/lib/labape_networks.py:122-134 | whatever is in environment.yml, it loads exactly when there is a network, each one is taken, no address is in two and the default is one of them |
| AllocatedPlans.DeployedPlanPasses | scripts/lib/check_ip_policy.py:50-86 | whatever the table holds: once a deploy's calls, one for each static group on any of the host's networks, succeed, the engine loads the networks, and passes the plan with the addresses read back exactly when each static VM's is one its network hands out, and no two are the same |
| AllocatedPlans.DeployLookUp | app/labape/engine/runner.py:250-262 | what a deploy changes in a VM's look-up by name: nothing if it had a row on its network, and otherwise its new row there is found |
| AllocatedPlans.EnoughFreeDeploys | app/labape/netpolicy.py:161-178 | a deploy gets all its addresses when each network has as many free as its static groups have VMs |
| AllocatedPlans.RefusedDeploy | app/labape/api/environments.py:347-358 | and none exactly when, after the groups before it, one static group's call is refused |
| AllocatedPlans.ResolvesExactly | app/labape/netpolicy.py:120-143 | what resolve refuses of a group's network, mode and roles is exactly what the engine would complain of in its VMs besides their addresses |
| AllocatedPlans.ReadsFromBefore | app/labape/engine/runner.py:250-262 | a VM is read back an address its network hands out, or its own row there, exactly when it had no row on its network before, or was read back one then |
| AllocatedPlans.StandingPlanPasses | scripts/lib/check_ip_policy.py:50-86 | with a table as runs of calls leave it, and rows that still stand, the plan passes exactly when each static VM's address is read back from its own network |
| RefusedPlans.OldRowIsRefused | app/labape/api/environments.py:347-358 | a VM with a row on its group's network, for which an address that network doesn't hand out is found, is redeployed in vain |
| RefusedPlans.NarrowedPoolIsRefused | app/labape/netpolicy.py:166-172 | the address of a VM from before its pool was narrowed is kept, and the engine refuses the plan |
| RefusedPlans.SecondNetworkIsRefused | app/labape/engine/runner.py:252-260 | a VM with rows on two networks is answered the one and deployed with the other, and the engine refuses the plan |
| ConsoleAccess.RateLimiter.RateLimit | app/labape/console_access.py:32-41 | one token's deque and answer after a call; other tokens' are untouched |
| ConsoleAccess.QueueIsRecentAccepted | app/labape/console_access.py:35-41 | the deque is exactly the calls accepted in the last 60 seconds |
| ConsoleAccess.AcceptsExactly | app/labape/console_access.py:38-41 | a call is accepted exactly when fewer than the limit were accepted in the 60 seconds before it |
| ConsoleAccess.EveryWindow | app/labape/console_access.py:32-41 | any 60 seconds hold at most the limit of accepted calls |
| ConsoleAccess.SpacedOut | app/labape/console_access.py:32-41 | the limit-th accepted call after any other comes at least 60 seconds later |
| ConsoleAccess.AcceptsWhenSpaced | app/labape/console_access.py:35-41 | a call is accepted exactly when fewer than the limit were accepted before it, or the limit-th of them back is 60 seconds ago |
| ConsoleAccess.RefusedOnlyWhenFull | app/labape/console_access.py:38-40 | a refused call has exactly the limit of accepted calls in the minute before it |
| ConsoleSessions.TextSession.Feed | app/labape/console_sessions.py:55-62 | the buffer stays the stream's last bytes and its offset |
| ConsoleSessions.TextSession.Read | app/labape/console_sessions.py:94-108 | what a read returns from the whole stream, its offset and how much was lost |
| ConsoleSessions.TextSession.Close | app/labape/console_sessions.py:110-113 | the first reason given stays |
| ConsoleSessions.Replay | app/labape/console_sessions.py:47-108 | a session object and a reader behave as the run of events says |
| ConsoleSessions.ReaderSeesStream | app/labape/console_sessions.py:94-108 | for any interleaving, the pieces with gaps of the lost bytes are the stream, and delivered plus lost is the last offset |
| ConsoleSessions.LosesNothingWhenKeptUp | app/labape/console_sessions.py:55-61 | nothing is lost exactly when the reader is never more than the buffer behind |
| Leases.Environments.Tick | app/labape/leases.py:111-167 | every environment's next state and everything done, in order |
| Leases.Environments.SetLease | app/labape/leases.py:61-83 | the new end, or the refusal, and the restarted lease |
| Leases.EveryLife | app/labape/leases.py:111-167 | over every life, settings changing at will: at most one shutdown and one destroy a term, neither while a job is queued or running, a destroy only after an earlier tick's shutdown and not before end plus grace |
| Leases.TickDoesExactly | app/labape/leases.py:111-167 | after every life, what the next tick does, by the history alone: the shutdown at once at the end, unless it was done in the term or a job is queued or running; the destroy after the grace period likewise; before the end, one reminder of the thresholds no reminder of the term has reported; and nothing otherwise |
| Leases.NothingWhileBusy | app/labape/leases.py:138-139 | however long a job keeps the environment busy, ticks only remind: nothing is shut down or destroyed |
| Leases.NewLeaseStartsOver | app/labape/leases.py:81-82 | a set lease starts a term in which nothing was done yet |
| Leases.FreshDeployStartsOver | app/labape/api/environments.py:522 | so does a fresh deploy, with the default lease when leases are enabled |
| Leases.OthersLeaveLease | app/labape/leases.py:68-79 | a refused request and the job runner's changes of the status leave the lease and its history alone |
| Leases.RemindersAtMost | app/labape/leases.py:123-137 | a term's reminders are at most the distinct thresholds, no threshold is reported twice |
| Leases.TickRemindsAll | app/labape/leases.py:123-137 | however a life goes on within the term, every threshold passed at a tick before the end stays reminded, and was reported by exactly one of the term's reminders |
| Leases.OwnerExtends | app/labape/leases.py:74-80 | when an owner's extension is given, that it never shortens a lease nor passes max_days from now |
| Leases.OwnersStayWithin | app/labape/leases.py:61-83 | over a life in which only owners extend, the lease never reaches further than max_days, or a fresh deploy's default, from the present |
| Leases.WhoSetsWhat | app/labape/leases.py:68-80 | exactly which requests are refused and why: only admins set an exact end, which must be ahead and is then the end, remove it, or pass max_days; what an owner may have, an admin gets the same |
| Leases.EndsStay | app/labape/leases.py:66-82 | over a life, an end stays an end unless an admin clears it or a fresh deploy finds leases disabled |
| Leases.OwnersOnlyExtend | app/labape/leases.py:74-82 | over a life in which only owners set leases, the end never comes sooner |
| Leases.EndsInTwoTicks | app/labape/leases.py:138-166 | whatever happened before, past the grace period two more idle ticks have shut the environment down and destroyed it once each in the term |
| Leases.ActionsMatchPhase | app/labape/leases.py:35-50 | the phase shown agrees with what the worker does |
| Leases.ShowsExactly | app/labape/leases.py:35-50 | active is shown exactly when the end is ahead and no threshold is passed, expiring exactly when one is; a tick does nothing about what shows as active |
| SecretStore.Store.DataKey | app/labape/security.py:223-230 | the cached lookup answers as unwrapping anew, whatever other processes did to the rows |
| SecretStore.Store.ActiveDataKey | app/labape/security.py:233-241 | the newest active key, or a new one that nothing uses yet |
| SecretStore.Store.PutSecret | app/labape/security.py:290-309 | the secret goes where its row says or, a new one, to its default store; stored, it reads back, every other secret reads as before and stays where it is, and those that are pinned or no environment's stay built-in; refused, nothing changes, and exactly when |
| SecretStore.NewSecretGoes | app/labape/security.py:278-288 | exactly where a new secret goes: built-in outside environment/; in an environment's folder, to the store of that environment's others if there are any; otherwise where the setting says |
| SecretStore.StaysInOnePlace | app/labape/security.py:269-288 | an environment's secrets stay in one store when another is written, whatever the setting has become |
| SecretStore.Store.GetSecret | app/labape/security.py:311-318 | reading through the cache, or from its store, is reading anew |
| SecretStore.Store.RewrapMaster | app/labape/security.py:178-202 | it succeeds exactly when everything opens under the old key, and otherwise changes nothing |
| SecretStore.RewrappedReads | app/labape/security.py:178-202 | every secret reads under the new master key as it did under the old, data keys keep their bytes, and no built-in value is under a master key directly |
| VmPasswords.MoveKeeps | app/labape/vm_passwords.py:54-126 | every commit, file and VM change keeps what is known about a VM's password |
| VmPasswords.KnownAtEveryStep | app/labape/vm_passwords.py:11-14 | at every crash point, with rotations while nothing is pending, the VM's password is the one returned for it or the pending one, and a stored own password is the VM's |
| VmPasswords.RotateKeepsExactly | app/labape/engine/vmaccess.py:420-424 | a rotation keeps what is known about the VM's password exactly when nothing is pending for it |
| VmPasswords.LateRotationLosesPassword | app/labape/vm_passwords.py:114-126 | a rotation after a promote that stopped halfway makes the next promote store a password the VM doesn't have |
| VmPasswords.OwnStays | app/labape/vm_passwords.py:119-123 | whatever steps are taken, with rotations while nothing is pending, a VM with a stored own password keeps one, which is the VM's, and the same one but for rotations |
| VmPasswords.OthersStay | app/labape/vm_passwords.py:82-94 | whatever steps the hand-over takes, labape-admin2's and a local account's password stay once made, and the files say what is stored |
| VmPasswords.EveryDeploySettles | app/labape/vm_passwords.py:62-126 | from anywhere deploys were stopped, one more that nothing interrupts can make each of its steps, and then the VM has its own stored password with nothing pending |
| VmPasswords.WrittenGetsIn | app/labape/vm_passwords.py:70-79 | once the variables are written, a VM with its own password is signed in to with it, one that still has the environment's with that, and one that took the pending one is where it should be |
| VmPasswords.WritingReplaces | app/labape/vm_passwords.py:103-107 | what is written replaces what it is about and keeps the rest of the VM's file |
| VmPasswords.Deploys.MakeHostVars | app/labape/vm_passwords.py:62-94 | exactly the member servers and the local accounts' VMs get variables, none of their passwords missing, and passwords are made only where there is none |
| VmPasswords.Deploys.WriteHostVars | app/labape/vm_passwords.py:97-111 | these VMs' files are updated with their variables, the others' kept, no marker is left, the number of VMs is returned, and the deploy gets in to each member server |
| VmPasswords.Deploys.Promote | app/labape/vm_passwords.py:114-126 | exactly the marked VMs' pending passwords become their own |
| Links.MadeCodesParse | app/labape/links.py:101-123 | the code a stack makes gives its address, fingerprint and secret, with slashes after the address and the fingerprint in either case |
| Links.OnlyCodesParse | app/labape/links.py:111-123 | what is taken has an https address, a whole fingerprint and a secret, and only what lacks one, or is no code, isn't |
| Links.AcceptsExactly | app/labape/links.py:168-187 | at any point of any run, the checks pass exactly for a code made there at most an hour ago and never accepted, from another stack with an https address that isn't linked, with a CA that can be read |
| Links.RefusalIsReal | app/labape/links.py:172-187 | each refusal is for its own reason |
| Links.JoiningStopsOneSide | app/labape/links.py:147-189 | either side of a handshake stopping leaves the other to go on, and takes no more steps itself |
| Links.RemovingStopsOneSide | app/labape/links.py:203-215 | so does either side of a removal |
| Links.StoppedJoinerIsDone | app/labape/links.py:147-165 | over every run, a joiner that stopped commits and stores nothing more of its handshake, whatever the inviter still does |
| Links.CodesAreGoodOnce | app/labape/links.py:168-187 | in every run, whatever overlaps: every code accepted was checked at most an hour after it was made, came from another stack with an https address, and none is accepted twice unless two accepts of it overlapped |
| Links.OverlapAcceptsTwice | app/labape/links.py:172-187 | whenever two accepts of a code overlap, for joiners not linked yet, the run can go on to accept it twice |
| Links.OneCodeTwoJoiners | app/labape/links.py:172-187 | one code links two stacks that post it together |
| Links.TokensMatch | app/labape/links.py:136-215 | at every point of every non-overlapping run, stored tokens hash to the peer's record and identify the caller |
| Links.OverlapMismatches | app/labape/links.py:141-189 | two overlapping handshakes leave tokens neither side accepts |
| Links.Stacks.MakeCode | app/labape/links.py:101-108 | an unused code, good for an hour |
| Links.Stacks.Accept | app/labape/links.py:168-189 | what the inviting side checks, in order, and what it then records and stores |
| Links.Stacks.FinishJoin | app/labape/links.py:159-165 | what the joining side records, pinned to the code's fingerprint, and stores once answered |
| Links.Stacks.Post | app/labape/links.py:147-165 | the handshake from the joiner's call on: refused and nothing changed, or both records and both tokens |
| Links.Stacks.JoinWith | app/labape/links.py:136-165 | a whole join's result, from the pasted code and the fetched CA root on, and the records and tokens it leaves |
| Links.Stacks.TellPeer | app/labape/links.py:205-212 | the peer drops its side exactly when it is reached and takes the caller as this stack |
| Links.Stacks.Unlink | app/labape/links.py:203-215 | which records and tokens a removal takes away |
| CatalogClosure.Closure | app/labape/api/catalog.py:130-141 | ends on any catalog, cycles included, with exactly the reached items, each once, the chosen ones first |
| CatalogClosure.IncludesByName | app/labape/api/catalog.py:130-140 | only packages include items, and each by its kind and name |
| CatalogClosure.ClosedHoldsReached | app/labape/api/catalog.py:135-140 | what is closed under inclusion holds everything reached |
| DirectoryObjects.ListOuDns | ansible/filter_plugins/directory_objects.py:8-40 | the loops and the sort give the list of the explicit units and the references' OUs |
| DirectoryObjects.ListedOnceParentsFirst | ansible/filter_plugins/directory_objects.py:20-40 | exactly those DNs, each once, a listed parent always before its child |
| DirectoryObjects.UnitUnderPath | ansible/filter_plugins/directory_objects.py:25-40 | an explicit unit is listed as the OU of its name right under its path, after the path where that is listed too; DNs of one depth keep their order |
| DirectoryObjects.OuInAnyCase | ansible/filter_plugins/directory_objects.py:32-33 | what counts as an OU starts with OU=, in any case |
| DirectoryObjects.AncestorsListed | ansible/filter_plugins/directory_objects.py:31-36 | every OU ancestor of a reference whose OUs come first is listed |
| DirectoryObjects.AddsAncestorsOnly | ansible/filter_plugins/directory_objects.py:31-36 | and a reference adds nothing but these |
| DirectoryObjects.AddsItselfExactly | ansible/filter_plugins/directory_objects.py:31-36 | a reference adds its own DN exactly when its OUs come first above something else |
| DirectoryObjects.LeadingComponentMisplaced | ansible/filter_plugins/directory_objects.py:31-36 | a component before the OU ends up behind it, so another DN than the one referred to is listed |

## Left out

- Real cryptography: AES-GCM, HKDF, Fernet, SHA-256 and X.509 are ideal functions or a log; the writing of backup keys as base32 is not modelled.
- SealProofs.OpensExactlyArchives: assumes no two sealings with one key drew the same salt and prefix.
- Seal.SealStream: without I/O errors; a call that one stops is in the histories, by the number of chunks it encrypted. A chunk counter past four bytes is modelled as the error it is.
- GuacamoleRelay.RelayFromGuacd: text is taken as already decoded, because replacing undecodable bytes can split a character at a read's edge; the tunnel's own first message and the browser's side are not modelled.
- Guacamole.ParseText: a negative length is reported as a fault of its own, because the loop may then never end; what the loop does with one is in GuacamoleLoop. int()'s non-ASCII digits and spaces and its limit of 4300 digits are not modelled.
- Guacamole.ParseInstruction: the same.
- GuacamoleRelay.TakeInstruction: the same; and read timeouts are not modelled.
- strip()'s non-ASCII white space.
- EngineNetworks.EngineAcceptsValidated: where the app's check and the engine's are written alike (the default gateway, inside, overlap, modes, addresses) the model shares one function; AcceptedMeans and EngineTakesExactly say what it comes to on either side.
- The text form of a CIDR block: both readers make the same IPv4Network of it, and the model starts there.
- Allocations.Table.Allocate: the row lock and concurrent transactions; each call is one transaction of its own. Rows are read in the order they were added.
- Allocations.EveryRun: that a VM holds one address needs names not to repeat within a call, which the code doesn't check; OneEachExactly has the exact condition.
- NetworkCatalog.EveryCatalog: each change is one transaction of its own; bootstrap's updates of single fields are not modelled.
- NetworkCatalog.LoadAccepts: the older single network of environment.yml, and which network is the default.
- AllocatedPlans.DeployedPlanPasses: about one KVM host's groups, all of whose VMs the plan creates.
- IpPolicyCheck.Check: which VMs a plan creates is an input, as the plan's change records are not modelled; a VM that already exists and sorts after a created one with its address only gets a warning.
- ConsoleAccess.EveryWindow: times are reals, so rounding of the monotonic clock is not modelled, and neither is the Retry-After header.
- ConsoleSessions.TextSession.Read: the waiting of a long poll, decoding, the session process and the sweeper are not modelled.
- Leases.Environments.Tick: whether an email is sent depends on addresses and mail settings; a reminder here is the tick's step that would send it.
- SecretStore.Store.PutSecret: an external store is a table that keeps what it took, its layout of names and moves between stores left out; which store most of an environment's secrets are in is a parameter, of which StaysInOnePlace assumes that it is one; a data key's own rotation is not modelled.
- VmPasswords.Deploys.MakeHostVars: which VMs are member servers, and which a local account is on, are parameters.
- VmPasswords.KnownAtEveryStep: the environment's password stays the same and VMs are not reinstalled; a rotation of Administrator's password is one step, from the VM's change to the stored value, and those of the other accounts (app/labape/engine/vmaccess.py, app/labape/env_accounts.py) are no steps of the model; of labape-admin2 and local accounts only the stored passwords and the files are modelled.
- Links.TokensMatch: proved for runs where a pair's handshakes and removals don't overlap, without a converse; polling and single sign-on are not modelled.
- Links.Stacks.JoinWith: the base64 and JSON form of a code, and white space in it, are left to how it is pasted; TLS is not modelled.
- One open console session per target, the notifications, quotas, templates and the job runner: they add little to these claims.
