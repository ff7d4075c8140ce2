# A verified model of SDPGatewayVerification

The repository is a software-defined-perimeter system. A client knocks at a **controller** with an
encrypted voucher; the controller puts the client's IP on its whitelist and answers access requests
with tickets; the client knocks at a **gateway** with a ticket, and the gateway opens the application
port for the client's IP; the **application** server limits how often an admitted IP may ask. The
whitelists drive `iptables`. Everything is built on RSA and MD5 helpers over a vendored OpenSSL tree,
whose headers hold the block collector behind MD5, overflow-checked arithmetic, constant-time masks
and a length-prefixed reader.

| file | models |
|---|---|
| `Firewall.dfy` | `comm/iptools/iptables_tool.cpp`: the rule chain and the whitelist beside it |
| `Gateway.dfy` | the gateway daemon and what it guarantees over all runs |
| `Controller.dfy`, `ControllerRuns.dfy` | the controller daemon; its guarantees over all runs |
| `Application.dfy` | the application's two limits |
| `SpaTools.dfy`, `RsaChunks.dfy` | tickets and vouchers; the chunking loops of the RSA helpers |
| `EndToEnd.dfy` | from an access list to an open port |
| `FrameCodec.dfy` | the RPC frame layout |
| `HashStream.dfy`, `SafeMath.dfy`, `ConstantTime.dfy`, `PacketReader.dfy` | the four OpenSSL headers |
| `Words.dfy`, `OrderedMap.dfy`, `Decimal.dfy`, `Options.dfy` | words and bit operators of any width, `std::map`, `std::to_string`, optional values |

Code that updates objects or loops is a `class` with methods or a method with loops. Each such method
is proved equal to a function of the old state, and the guarantees are lemmas about these functions.
For the three daemons a second, independent reading of a run is defined on the sequence of events
alone (`Open`, `Listed`, `WithinRate`, …, with no map, chain or counter in it), and the lemmas say
that the daemons do exactly what that reading says.

`dafny verify dfyconfig.toml` checks the whole project.

## What the proofs bring out

- **Seeds cannot be removed.** `InitWhiteList` stores the value 1 instead of the port, so a seed host
  never counts as a member on a real port. A blacklisted IP is therefore accepted on the application
  port exactly when it is a seed that has knocked successfully (`BlacklistSafetyExact`;
  `BlacklistedSeedWithTicket` is such a run); for every other IP blacklisting is safe in every run.
- **Ticket times are 32 bits.** A ticket minted at time t is in time up to (t + 30) mod 2^32, also on a
  gateway whose clock is behind the controller's; from its minting on, that is up to t + 30 if and only
  if t + 30 < 2^32. Together with the right sender, the blacklist and the unused signature this is all
  the gateway asks of a ticket from any access list (`EndToEndAdmission`). One minted at 2^32 - 30 never
  passes (`LateTicketNeverPasses`).
- **An overactive or idle visitor is cut off.** The application's notices are exactly the visits it does
  not serve (`NoticesFollowTrace`), and after such a notice the gateway drops the visitor, unless it is a
  seed, until a knock of its own is let through (`CutOff`).
- **The rate limit needs a minute that an `int` can hold.** `Freq::min` is an `int` compared with a
  `time_t`; three visits per minute is the limit in every run with a clock that does not go back if and only
  if the minute is below 2^31 (`RateLimitExact`). From then on every visit passes.
  `FrequencyFollowsTrace` says what happens when the clock does go back.
- **`RSAVerify` looks at the signature's length only after a block has passed.** With a signature of
  the length `RSASign` produces it accepts exactly when every chunk verifies (`VerifyExactLength`).
  `VerifyAccepts` says exactly when it accepts at all, `AcceptanceCoversSource` exactly when that means
  that every chunk verifies, and `OneBlockIsEnough` is the smallest case in which it does not.
- **Kept digests are one byte.** `MD5Encrypt` uses the status of `MD5_Final` as the digest length, so
  the controller lets at most 256 knocks through in one run (`AtMost256Passes`). No voucher is among
  them twice, whatever digest it carries (`NoVoucherTwice`).
- **A frame's message size goes through `int`.** Packing and parsing restore the body exactly when the
  size survives that conversion (`ParseOfPackWithHeader`).
- **`RSADecrypt` opens blocks into a buffer of the modulus size minus 42 bytes**, while PKCS #1 v1.5
  padding allows up to the modulus size minus 11. `DecryptOverruns` says exactly for which texts it runs
  out of bounds, `VoucherOverruns` says it for a knock at the controller, and `SoundKeyOverruns` has a
  block that does it, for every modulus size, under a key that meets every assumption made on keys here.
- The comment at `comm/ssltools/ssl_tool.cpp:35` names OAEP padding; the calls use PKCS #1 v1.5 padding.
  The model follows the code and takes from the comment only its limit of the modulus size minus 42,
  which is the chunk size. The comment at `modules/application/sdp_application_config.h:13` speaks of
  two hours where the constant is ten seconds.

## Assumptions

RSA block operations, the MD5 compression function and protobuf serialization are parameters. Where a
theorem needs it, `RsaKey.Sound` says that one block of at most the modulus size minus 42 bytes becomes
one block of the modulus size and comes back, and that its signature verifies; `Suite.Sound` adds inverse
serialization and a 16-byte digest. Lemmas that require only `Usable` assume nothing but a modulus of more
than 42 bytes. Random padding, random numbers and clock readings are arguments. `iptables` commands are
atomic and succeed, and the chain starts empty. Packets arrive already split into their protobuf fields.
Numbers in frames are in the byte order of a little-endian host.

## Model

| member | source | states |
|---|---|---|
| Firewall.IptablesTools.IptablesInit | comm/iptools/iptables_tool.cpp:31-49 | the chain afterwards is the old one under one DROP rule for the port and one ACCEPT rule per listed host, the last one on top |
| Firewall.IptablesTools.BanUser | comm/iptools/iptables_tool.cpp:51-60 | removes the first equal ACCEPT rule and nothing else |
| Firewall.IptablesTools.UnbanUser | comm/iptools/iptables_tool.cpp:62-71 | puts one ACCEPT rule at the head of the chain |
| Firewall.IPWhiteList.OpWhiteList | comm/iptools/iptables_tool.cpp:86-118 | new map, new chain and return value for every operation code: the two refusals change nothing and return -1, an addition keeps an existing key and puts its rule on top, a removal takes out one rule |
| Firewall.IPWhiteList.IsIPInWhiteList | comm/iptools/iptables_tool.cpp:120-128 | true exactly when the map holds the IP with this port |
| Firewall.IPWhiteList.InitWhiteList | comm/iptools/iptables_tool.cpp:130-145 | every host not yet listed gets the value 1, and the port is initialised |
| Firewall.VerdictOfGuarded | comm/iptools/iptables_tool.cpp:36-47 | with no ACCEPT rule for the IP under the port's DROP rule, the first match accepts exactly when there is an ACCEPT rule at all |
| Firewall.FirstMatch | comm/iptools/iptables_tool.cpp:36-47 | the verdict is the target of the first matching rule, and there is none when no rule matches |
| Firewall.DeleteFirst | comm/iptools/iptables_tool.cpp:55 | a deletion takes out the first equal rule and leaves all others in place |
| Firewall.InitStacks | comm/iptools/iptables_tool.cpp:36-47 | rule by rule, the chain after start-up on one port |
| Firewall.OpKeepsTracks | comm/iptools/iptables_tool.cpp:86-118 | one operation keeps map and chain in agreement for an IP that is no seed, and makes it a member exactly when it should |
| Firewall.OpOnPinned | comm/iptools/iptables_tool.cpp:86-118 | on a seed an addition stacks one more rule and a removal does nothing |
| Firewall.StrangersAfterInit | comm/iptools/iptables_tool.cpp:130-145 | after any start-up an unlisted IP is on no list and dropped on every port set up |
| Firewall.NoVerdictOffPort | comm/iptools/iptables_tool.cpp:130-145 | no start-up leaves a matching rule on a port that was not set up |
| Firewall.FirewallRefinesWhitelist | comm/iptools/iptables_tool.cpp:86-145 | for every start-up, every run of operations on one port and every IP that is no seed: accepted iff member iff last added, with one ACCEPT rule or none |
| Firewall.SeedsStayAccepted | comm/iptools/iptables_tool.cpp:130-145 | in every run every seed stays accepted on the port it was set up for |
| Firewall.SeedsAreNeverRemoved | comm/iptools/iptables_tool.cpp:86-118 | on another port a seed has one rule per addition, is accepted from its first addition on and is never a member |
| Firewall.OtherPortsUntouched | comm/iptools/iptables_tool.cpp:86-118 | a run on one port changes no verdict on any other port |
| Gateway.SDPAppGateway.constructor | modules/gateway/sdp_gateway.cpp:14-25 | start-up: controller and application are seeds of the gateway's port, the application port has none |
| Gateway.SDPAppGateway.QueryAndInsertMD5 | modules/gateway/sdp_gateway_config.cpp:33-47 | refuses a key already in the map, otherwise records it |
| Gateway.SDPAppGateway.ControllerBlackListOp | modules/gateway/sdp_gateway_config.cpp:49-62 | the blacklist after an addition, a removal and any other code |
| Gateway.SDPAppGateway.ControllerBlackListIsIn | modules/gateway/sdp_gateway_config.cpp:64-72 | true exactly when the IP is held with this port |
| Gateway.SDPAppGateway.GateFuncUdpRecv | modules/gateway/sdp_gateway_service_impl.cpp:6-61 | every return code and the whole new state: nothing changes unless all five checks pass |
| Gateway.SDPAppGateway.GateFuncBlackListOp | modules/gateway/sdp_gateway_service_impl.cpp:65-93 | new blacklist and whitelist, and the error return when the IP was no member |
| Gateway.SDPAppGateway.GateFuncNotice | modules/gateway/sdp_gateway_service_impl.cpp:95-122 | only the application can close the port for an IP, and nothing else changes; it returns 1 to anyone else, -1 when the IP was no member, and otherwise ends without a value |
| Gateway.MapsFollowTrace | modules/gateway/sdp_gateway_config.cpp:33-72 | in every reachable state blacklist and replay map hold exactly what the events say |
| Gateway.PassesIsLetThrough | modules/gateway/sdp_gateway_service_impl.cpp:14-60 | a knock returns 0 exactly when, by the events alone, its IP is not blacklisted, its ticket opens, names it and is unexpired, and its signature is unused |
| Gateway.BlacklistExact | modules/gateway/sdp_gateway_config.cpp:49-72 | an IP is blacklisted exactly when some order added it and no later one took it off |
| Gateway.PassesExactly | modules/gateway/sdp_gateway_service_impl.cpp:14-60 | after every run and for every clock reading, a knock returns 0 exactly when no standing order blacklists its IP, no earlier knock with its signature returned 0, and its ticket opens, names the IP and has a uint32 end not before now |
| Gateway.FirewallFollowsTrace | modules/gateway/sdp_gateway_service_impl.cpp:6-122 | in every run an IP that is no seed is accepted on the application port exactly when its last admitting or removing event admitted it |
| Gateway.BlacklistSafety | modules/gateway/sdp_gateway_service_impl.cpp:63-93 | no IP other than a seed is ever both blacklisted and accepted |
| Gateway.ClosedUntilAdmitted | modules/gateway/sdp_gateway_service_impl.cpp:80-86 | a closed IP stays closed, also after leaving the blacklist, until a knock of its own is let through |
| Gateway.AdmissionProvenance | modules/gateway/sdp_gateway_service_impl.cpp:15-60 | accepted exactly when the trace has, after the last removal, a knock with a good ticket of that IP while it was not blacklisted |
| Gateway.AdmittedExactly | modules/gateway/sdp_gateway_service_impl.cpp:46-117 | what such a knock is: it returned 0, and after it came neither an order that blacklists the IP nor a notice of the application against it |
| Gateway.PassesAreConserved | modules/gateway/sdp_gateway_service_impl.cpp:46-60 | knocks that returned 0 and entries of the replay map are equally many |
| Gateway.NoSignatureTwice | modules/gateway/sdp_gateway_config.cpp:33-47 | two knocks of one run for which GateFuncUdpRecv returns 0 have different signatures |
| Gateway.SeedsAreNeverClosed | modules/gateway/sdp_gateway_service_impl.cpp:63-122 | a seed is accepted on the application port exactly when some knock of its own was let through, whatever is ordered or noticed |
| Gateway.BlacklistSafetyExact | modules/gateway/sdp_gateway_service_impl.cpp:77-86 | a blacklisted IP is accepted if and only if it is a seed with a knock that was let through |
| Gateway.BlacklistedSeedStaysOpen | comm/iptools/iptables_tool.cpp:134-138 | the two-event run that shows it, for every seed and every ticket good for it |
| Gateway.OtherPortsUntouched | modules/gateway/sdp_gateway.cpp:17-25 | in every run exactly the seeds are accepted on the gateway's own port, and no rule matches anyone on any further port |
| Controller.SDPController.constructor | modules/controller/sdp_controller.cpp:10-17 | start-up: the gateway is the only seed, no registrations, no permissions |
| Controller.SDPController.QueryAndInsertMD5 | modules/controller/sdp_controller_config.cpp:45-59 | refuses a key already in the map, otherwise records it |
| Controller.SDPController.RegisterApp | modules/controller/sdp_controller_config.cpp:61-67 | a non-empty list replaces the gateway's entry |
| Controller.SDPController.UpdateUserPerssionAdd | modules/controller/sdp_controller_config.cpp:74-93 | grants the destination once and reports a repetition |
| Controller.SDPController.CheckUserPasswd | modules/controller/sdp_controller_config.cpp:116-134 | 0 exactly for an account with its password, and which error otherwise |
| Controller.SDPController.CheckUserPermissionExists | modules/controller/sdp_controller_config.cpp:136-149 | 0 exactly when the account has a permission |
| Controller.SDPController.CheckUserPermissionAllowed | modules/controller/sdp_controller_config.cpp:151-166 | 0 exactly when the destination is granted to the account |
| Controller.SDPController.ConFuncUdpRecv | modules/controller/sdp_controller_service_impl.cpp:20-66 | every return code and the whole new state of a voucher knock |
| Controller.SDPController.ConFuncRegisterApp | modules/controller/sdp_controller_service_impl.cpp:121-163 | new app map and permissions, and -1 for an empty list |
| Controller.SDPController.GrantToUsers | modules/controller/sdp_controller_service_impl.cpp:151-157 | the three grants for one destination |
| Controller.SDPController.AddLine | modules/controller/sdp_controller_service_impl.cpp:86-113 | a granted application adds one line with the next ticket, any other adds nothing |
| Controller.SDPController.AddAccess | modules/controller/sdp_controller_service_impl.cpp:83-114 | the inner loop adds the granted applications of one gateway, each with its own ticket |
| Controller.SDPController.ConFuncGetAccess | modules/controller/sdp_controller_service_impl.cpp:68-119 | the access list is the granted applications in map order then list order, with the k-th ticket on the k-th line |
| OrderedMap.PutFacts | modules/controller/sdp_controller_config.cpp:61-67 | assignment to the app map changes one key and keeps the iteration order |
| OrderedMap.SortedUnique | modules/controller/sdp_controller_service_impl.cpp:78-79 | the iteration sequence is determined by the lookups |
| OrderedMap.LookupIsEntry | modules/controller/sdp_controller_config.cpp:61-72 | a lookup finds exactly the entries of the sequence |
| OrderedMap.LessIsPrecedes | modules/controller/sdp_controller_service_impl.cpp:78-79 | the order of the keys is that of the first differing character, or of a proper prefix |
| Decimal.ToStringInjective | modules/controller/sdp_controller_service_impl.cpp:88 | different ports have different decimal strings |
| Decimal.DestinationIsDecimal | modules/controller/sdp_controller_service_impl.cpp:143 | the key is the IP, a colon and the decimal notation: a sign, then digits without a leading zero that have the right value |
| Decimal.DestinationInjective | modules/controller/sdp_controller_service_impl.cpp:143 | the key "ip:port" determines IP and port, for every IP string |
| ControllerRuns.PermissionsFollowTrace | modules/controller/sdp_controller_service_impl.cpp:150-159 | in every run a permission holds exactly for the three accounts and what that IP ever registered on that port |
| ControllerRuns.VerdictsFollowTrace | modules/controller/sdp_controller_service_impl.cpp:28-58 | a knock passes or is refused exactly as the events alone say |
| ControllerRuns.PassesExactly | modules/controller/sdp_controller_service_impl.cpp:28-58 | after every run a knock returns 0 exactly when its voucher opens to one of the three accounts with its password, something was registered, and no earlier knock with its digest returned 0; it is refused exactly when it opens without that |
| ControllerRuns.ReplayFollowsTrace | modules/controller/sdp_controller_config.cpp:45-59 | the replay map holds exactly the digests that let a knock through |
| ControllerRuns.WhitelistFollowsTrace | modules/controller/sdp_controller_service_impl.cpp:12-66 | an IP other than the gateway's is listed and accepted exactly when its most recent decisive knock passed |
| ControllerRuns.AdmissionProvenance | modules/controller/sdp_controller_service_impl.cpp:12-66 | an IP other than the gateway's is accepted exactly when some knock of it returned 0 and no later one was refused |
| ControllerRuns.OtherPortsUntouched | modules/controller/sdp_controller.cpp:17-20 | in every run no rule matches anyone on any other port |
| ControllerRuns.GatewayStaysAccepted | modules/controller/sdp_controller.cpp:17-20 | the gateway stays accepted on the controller's port in every run |
| ControllerRuns.PassesAreConserved | modules/controller/sdp_controller_service_impl.cpp:51-65 | knocks that returned 0 and entries of the replay map are equally many |
| ControllerRuns.NoDigestTwice | modules/controller/sdp_controller_config.cpp:45-59 | two knocks of one run for which ConFuncUdpRecv returns 0 have different kept digests |
| ControllerRuns.NoVoucherTwice | comm/spatools/spa_tool.cpp:41-49 | two knocks of one run for which ConFuncUdpRecv returns 0 have different encrypted data |
| ControllerRuns.AtMost256Passes | comm/ssltools/ssl_tool.cpp:250-253 | at most 256 knocks pass in a run, whatever the RSA operations and the serialization do |
| ControllerRuns.AppsFollowTrace | modules/controller/sdp_controller_config.cpp:61-72 | the app map is sorted and holds exactly the last non-empty registration of every gateway |
| ControllerRuns.AccessListExact | modules/controller/sdp_controller_service_impl.cpp:77-118 | after every run the three accounts get exactly all current registrations in order with tickets for the requester's IP, other accounts get nothing |
| ControllerRuns.AccessListByGateway | modules/controller/sdp_controller_service_impl.cpp:79-100 | after every run the lines of each gateway are its last non-empty registration, item for item in list order, or none, and the gateways come in ascending order |
| EndToEnd.MintedTicketIsFresh | modules/gateway/sdp_gateway_service_impl.cpp:39-43 | a ticket minted at t is unexpired at any clock reading, earlier or later, exactly up to (t + 30) mod 2^32 |
| EndToEnd.InTimeSinceMinting | modules/gateway/sdp_gateway_service_impl.cpp:39-43 | from its minting on that is up to t + 30 if this fits in 32 bits, and never otherwise |
| EndToEnd.MintedTicketOpens | modules/controller/sdp_controller_service_impl.cpp:102-113 | the gateway reads from a minted ticket what the controller put in |
| EndToEnd.MintedTicketSeals | modules/controller/sdp_controller_service_impl.cpp:102-113 | what is encrypted, digested and signed for a line: the user's IP, the clock cut to 32 bits, the random number and 30 seconds |
| EndToEnd.EndToEndAdmission | modules/gateway/sdp_gateway_service_impl.cpp:14-60 | any line of any access list, presented from any IP at any clock reading after any gateway run, is admitted if and only if the sender is the IP it was minted for, that IP is not blacklisted, the signature is unused and the reading is at most (t + 30) mod 2^32; then the application port is open for the IP |
| EndToEnd.PresentedTicket | modules/gateway/sdp_gateway_service_impl.cpp:14-60 | the same for one minted ticket |
| EndToEnd.LateTicketNeverPasses | modules/gateway/sdp_gateway_service_impl.cpp:39-43 | a 30-second ticket minted at 2^32 - 30 passes from no IP at no clock reading after 0, after any gateway run |
| EndToEnd.BlacklistedSeedWithTicket | comm/iptools/iptables_tool.cpp:134-138 | with a ticket just minted for it, a seed that knocks and is then blacklisted is accepted |
| EndToEnd.CutOff | modules/application/sdp_application_config.cpp:33-52 | after any application run, a visit over the rate or too late makes a notice naming the visitor; in any gateway run that receives it, the visitor, unless a seed, stays dropped until a knock of its own is let through |
| EndToEnd.NoticeCloses | modules/gateway/sdp_gateway_service_impl.cpp:112-117 | after any gateway run, the application's notice leaves an IP that is no seed dropped |
| Application.SDPApplication.FrequencyJudgment | modules/application/sdp_application_config.cpp:25-62 | the new counter entry, the return value and the notice to the gateway |
| Application.SDPApplication.TimeLimitJudgement | modules/application/sdp_application_config.cpp:64-96 | the recorded time, the return value and the notice to the gateway |
| Application.SDPApplication.AppFuncHttps | modules/application/sdp_application_service_impl.cpp:4-28 | both limits in order: response, return value, notices and state |
| Application.FrequencyFollowsTrace | modules/application/sdp_application_config.cpp:28-61 | after every run, whatever the clock did, a visit is refused exactly when the last three visits of its IP were in its minute (of the oldest, the int its minute converts to counts) |
| Application.FrequencyIsAttempts | modules/application/sdp_application_config.cpp:28-61 | with a clock that does not go back, a visit passes exactly when it is among the first three of its IP in its minute, if an int can hold the minute |
| Application.RecordFollowsTrace | modules/application/sdp_application_config.cpp:68-92 | the recorded time is that of the last visit within the rate |
| Application.ServesExactly | modules/application/sdp_application_service_impl.cpp:6-27 | after every run, whatever the clock did, the handler runs exactly for visits within the rate and at most ten seconds after the last such visit |
| Application.NoticesFollowTrace | modules/application/sdp_application_config.cpp:25-96 | after every run the notices sent are the IPs of the visits not served, in order |
| Application.RateLimit | modules/application/sdp_application_config.cpp:25-62 | in each minute min(3, attempts) visits pass, or all of them once an int cannot hold the minute, and no more are served |
| Application.RateLimitExact | modules/application/sdp_application_config.h:30-33 | three per minute is the limit in all runs if and only if the minute is below 2^31 |
| Words.ToInt32IsCongruent | modules/application/sdp_application_config.cpp:28 | the conversion of a clock value to an int changes it by a multiple of 2^32 only |
| RsaChunks.RSAEncrypt | comm/ssltools/ssl_tool.cpp:40-55 | the loop yields the chunks encrypted one by one, within bounds |
| RsaChunks.RSADecrypt | comm/ssltools/ssl_tool.cpp:85-106 | the loop yields the decrypted blocks joined, an error, or out of bounds: an out-of-range slice, or a block that opens to more than the buffer of k - 42 bytes holds |
| RsaChunks.RSASign | comm/ssltools/ssl_tool.cpp:153-169 | the loop yields the chunk signatures joined |
| RsaChunks.RSAVerify | comm/ssltools/ssl_tool.cpp:211-237 | the loop with its early exit and its out-of-range slices |
| RsaChunks.CiphertextLength | comm/ssltools/ssl_tool.cpp:32-39 | the ciphertext has k * ceil(n / (k - 42)) bytes |
| RsaChunks.ChunkAt | comm/ssltools/ssl_tool.cpp:40-55 | chunk i is the i-th stretch of the given size, the last one as long as what is left |
| RsaChunks.EncryptBlockwise | comm/ssltools/ssl_tool.cpp:40-55 | the ciphertext is one encrypted block per chunk of k - 42 bytes, in order, each with fresh padding |
| RsaChunks.DecryptOfEncrypt | comm/ssltools/ssl_tool.cpp:40-106 | decryption restores every plaintext for every k > 42 |
| RsaChunks.DecryptOverruns | comm/ssltools/ssl_tool.cpp:85-106 | decryption of any text runs out of bounds exactly when some block is too short or opens to more than k - 42 bytes and every block before it opens within that size |
| RsaChunks.DecryptSucceeds | comm/ssltools/ssl_tool.cpp:97-106 | it succeeds exactly when every block is whole and opens to at most k - 42 bytes |
| RsaChunks.DecryptYields | comm/ssltools/ssl_tool.cpp:97-106 | and it yields the opened blocks joined in order |
| RsaChunks.SoundKeyOverruns | comm/ssltools/ssl_tool.cpp:85-100 | for every k > 42 a sound key, and one block that opens to k - 41 bytes and overruns |
| RsaChunks.SignatureLength | comm/ssltools/ssl_tool.cpp:143-152 | the signature has k * ceil(n / (k - 42)) bytes |
| RsaChunks.SignBlockwise | comm/ssltools/ssl_tool.cpp:153-169 | the signature is one signed block per chunk of k - 42 bytes, in order |
| RsaChunks.VerifyOfSign | comm/ssltools/ssl_tool.cpp:153-232 | verification accepts every signature made, the empty one included |
| RsaChunks.VerifyAccepts | comm/ssltools/ssl_tool.cpp:211-232 | exactly when verification accepts, for every signature and source |
| RsaChunks.VerifyRejects | comm/ssltools/ssl_tool.cpp:211-237 | verification rejects exactly when some whole block fails to verify its chunk and all pairs before it verify |
| RsaChunks.VerifyRunsOut | comm/ssltools/ssl_tool.cpp:211-232 | it runs out of bounds exactly when the verified part ends inside a block that a chunk still needs, or when more signature follows a last chunk that is not full; there is no fourth outcome |
| RsaChunks.VerifyExactLength | comm/ssltools/ssl_tool.cpp:211-232 | at the length RSASign gives, it accepts exactly when every chunk verifies against its own block |
| RsaChunks.AcceptanceCoversSource | comm/ssltools/ssl_tool.cpp:211-232 | an accepted signature verifies every chunk if and only if it has at least as many blocks as there are chunks |
| RsaChunks.OneBlockIsEnough | comm/ssltools/ssl_tool.cpp:225-228 | a one-block signature of the first chunk is accepted for a longer source, whose other chunks it does not verify |
| RsaChunks.MD5Encrypt | comm/ssltools/ssl_tool.cpp:240-255 | the kept text is the first byte of the output of the last chaining value over the padded text |
| SpaTools.VoucherRoundTrip | comm/spatools/spa_tool.cpp:5-56 | opening a sealed voucher restores it |
| SpaTools.TicketRoundTrip | comm/spatools/spa_tool.cpp:58-121 | opening a sealed ticket restores it |
| SpaTools.VoucherSeals | comm/spatools/spa_tool.cpp:5-26 | the data is the serialized voucher encrypted chunk by chunk, the digest the first MD5 byte of it |
| SpaTools.TicketSeals | comm/spatools/spa_tool.cpp:58-83 | likewise for a ticket, which is also signed chunk by chunk by the controller |
| SpaTools.VoucherOpens | comm/spatools/spa_tool.cpp:28-56 | a voucher opens exactly when its data decrypts to a text whose first digest byte it carries, and to the parse of that text; when it fails |
| SpaTools.VoucherFixesDigest | comm/spatools/spa_tool.cpp:41-49 | vouchers that open with the same encrypted data are equal |
| SpaTools.OpenedTicketIsSigned | comm/spatools/spa_tool.cpp:99-120 | a ticket opens exactly when it decrypts, its digest byte matches and its signature is acceptable |
| SpaTools.TicketOpens | comm/spatools/spa_tool.cpp:85-121 | a ticket opens exactly when it decrypts, carries the first digest byte and has an acceptable signature, and to the parse of its text |
| SpaTools.TicketFails | comm/spatools/spa_tool.cpp:85-121 | it fails exactly when it does not decrypt, the digest byte differs, or a signature block fails to verify |
| SpaTools.TicketOverruns | comm/spatools/spa_tool.cpp:85-121 | it runs out of bounds exactly in its encrypted data or, with a right digest, in its signature |
| SpaTools.VoucherOverruns | comm/spatools/spa_tool.cpp:30-56 | opening a voucher runs out of bounds exactly when its encrypted data has such a block, before any digest is looked at |
| SpaTools.KeptDigestIsOneByte | comm/spatools/spa_tool.cpp:41-49 | an opened voucher carries a one-byte digest, whatever the RSA operations and the serialization do |
| FrameCodec.PacketData.ParseDataFromString | comm/erpc/erpc_handler.cpp:297-331 | every field after parsing, or no change and the length error |
| FrameCodec.PacketData.PackDataToString | comm/erpc/erpc_handler.cpp:333-361 | the string appended piece by piece |
| FrameCodec.IntegerCopies | comm/erpc/erpc_handler.cpp:363-374 | the 4-byte integer copies are bijections, signed and unsigned |
| FrameCodec.ParseLayout | comm/erpc/erpc_handler.cpp:297-331 | which bytes each parsed field comes from, the numbers least significant byte first, the return code in two's complement |
| FrameCodec.ParseOfPackPlain | comm/erpc/erpc_handler.cpp:297-361 | without a header, parsing a packed frame restores command id and body |
| FrameCodec.ParseOfPackWithHeader | comm/erpc/erpc_handler.cpp:297-361 | with a header, also the numbers and the message cut or padded to 50 bytes; the body comes back behind the surplus zeros, so unchanged exactly when the message size survives as an int |
| FrameCodec.PackOfParse | comm/erpc/erpc_handler.cpp:297-361 | packing a parsed string restores it, and parsing fails exactly on strings that are too short |
| FrameCodec.OversizeMessageShiftsBody | comm/erpc/erpc_handler.cpp:351-354 | with a message of 2^32 + 10 bytes the parsed body has 40 zero bytes in front |
| HashStream.HashContext.constructor | lib3rd/openssl/include/openssl/md5.h:41-46 | an empty context |
| HashStream.HashContext.AddToCounter | lib3rd/openssl/include/crypto/md32_common.h:142-147 | Nh:Nl grows by eight times the length modulo 2^64, carry included |
| HashStream.HashContext.FillBuffer | lib3rd/openssl/include/crypto/md32_common.h:149-172 | completes and compresses a buffered block, or only extends the buffer |
| HashStream.HashContext.TakeRest | lib3rd/openssl/include/crypto/md32_common.h:174-186 | compresses the whole blocks and buffers the rest |
| HashStream.HashContext.Collect | lib3rd/openssl/include/crypto/md32_common.h:149-187 | bytes compressed and buffered are the earlier ones followed by the input, whatever the buffer held |
| HashStream.HashContext.Update | lib3rd/openssl/include/crypto/md32_common.h:132-188 | bytes compressed so far plus the buffered tail are the bytes given so far plus the new ones, and the bit count follows |
| HashStream.HashContext.CloseTail | lib3rd/openssl/include/crypto/md32_common.h:197-207 | appends 0x80 and flushes a block when the counter does not fit |
| HashStream.HashContext.LastBlock | lib3rd/openssl/include/crypto/md32_common.h:208-219 | zeros, the counter in the hash's byte order, and the last block |
| HashStream.HashContext.CompressRest | lib3rd/openssl/include/crypto/md32_common.h:195-219 | from every buffer state, the bytes compressed in all are then the padded message |
| HashStream.HashContext.Wipe | lib3rd/openssl/include/crypto/md32_common.h:220-221 | the buffer is emptied and zeroed, nothing else changes |
| HashStream.HashContext.Final | lib3rd/openssl/include/crypto/md32_common.h:195-230 | the bytes compressed in all are the padded message, the digest is the output of the last chaining value over its blocks, the buffer is wiped |
| HashStream.HashInPieces | lib3rd/openssl/include/crypto/md32_common.h:132-230 | every way of cutting a message into updates gives the digest of the whole message |
| HashStream.OneShotIsDigest | lib3rd/openssl/include/crypto/md32_common.h:132-230 | the digest is the output of a chain that starts at the initial value and compresses every 64-byte block of the padded message in turn |
| HashStream.DigestIsUnique | lib3rd/openssl/include/crypto/md32_common.h:132-230 | and no other string is |
| HashStream.PadLayout | lib3rd/openssl/include/crypto/md32_common.h:195-219 | the padded message byte by byte: the message, 128, zeros, the bit count modulo 2^64 in the hash's byte order, in the least number of blocks |
| HashStream.FoldAppend | lib3rd/openssl/include/crypto/md32_common.h:174-180 | compressing whole blocks and then more is compressing the concatenation |
| HashStream.ZeroCountIsLeast | lib3rd/openssl/include/crypto/md32_common.h:203-208 | the number of zero bytes is the least that fills the last block (section 3.1 of RFC 1321) |
| HashStream.PadInjective | lib3rd/openssl/include/crypto/md32_common.h:197-219 | messages below 2^61 bytes with the same padding are equal (sections 3.1 and 3.2 of RFC 1321) |
| HashStream.HostL2cIsEncoding | lib3rd/openssl/include/crypto/md32_common.h:102-126 | the macro writes the 4-byte encoding in the chosen byte order |
| HashStream.HostMacrosInvert | lib3rd/openssl/include/crypto/md32_common.h:102-126 | the two macros undo each other in both byte orders |
| HashStream.CounterIsLengthField | lib3rd/openssl/include/crypto/md32_common.h:210-217 | the two counter words are the 64-bit length field |
| HashStream.CounterArithmetic | lib3rd/openssl/include/crypto/md32_common.h:142-147 | splitting the bit count over two words with the `l < Nl` carry test loses nothing |
| SafeMath.AddS | lib3rd/openssl/include/internal/safe_math.h:59-71 | clamps the true sum, errs exactly when it is out of range, and no intermediate overflows |
| SafeMath.SubS | lib3rd/openssl/include/internal/safe_math.h:102-114 | clamps the true difference, errs exactly when it is out of range, and no intermediate overflows |
| SafeMath.MulS | lib3rd/openssl/include/internal/safe_math.h:131-179 | clamps the true product; the fallback also errs when it is exactly the minimum and neither factor is 1 |
| SafeMath.ClampIsNearest | lib3rd/openssl/include/internal/safe_math.h:59-179 | the clamped value is the representable number nearest to the true one, and the only one |
| SafeMath.DivS | lib3rd/openssl/include/internal/safe_math.h:195-209 | the truncated quotient clamped to the range, an error exactly when it does not exist or fit, and the value returned for a zero divisor |
| SafeMath.ModS | lib3rd/openssl/include/internal/safe_math.h:225-239 | the truncated remainder, with the errors of the division and the value returned with each |
| SafeMath.AddU | lib3rd/openssl/include/internal/safe_math.h:73-81 | errs exactly when the sum exceeds the maximum; returns the sum, wrapped in that case |
| SafeMath.MulU | lib3rd/openssl/include/internal/safe_math.h:145-189 | both variants err exactly when the product exceeds the maximum; they return the product, wrapped in that case |
| SafeMath.QuoRem | lib3rd/openssl/include/internal/safe_math.h:208 | truncated quotient and remainder satisfy the division equation with a small remainder of the dividend's sign |
| SafeMath.QuoRemUnique | lib3rd/openssl/include/internal/safe_math.h:208 | and they are the only numbers that do |
| SafeMath.MulDivIdentity | lib3rd/openssl/include/internal/safe_math.h:306-313 | dividing one factor first and correcting with the remainder is exact under truncation, and the parts do not cancel |
| SafeMath.MulDivS | lib3rd/openssl/include/internal/safe_math.h:317-344 | without an error the result is the truncated a * b / c; exactly when an error is raised, and the value returned with it, for both multiplication variants |
| SafeMath.ExactPartFlagged | lib3rd/openssl/include/internal/safe_math.h:330-343 | with exact overflow detection only the remainder product can raise an error although the quotient fits |
| SafeMath.MulDivU | lib3rd/openssl/include/internal/safe_math.h:346-370 | without an error the result is the floor of a * b / c; exactly when an error is raised, and the value returned with it, for both multiplication variants |
| ConstantTime.MsbMask | lib3rd/openssl/include/internal/constant_time.h:100-119 | all ones exactly when the top bit is set, for every width |
| ConstantTime.LtMask | lib3rd/openssl/include/internal/constant_time.h:121-141 | all ones exactly when a < b |
| ConstantTime.GeMask | lib3rd/openssl/include/internal/constant_time.h:143-152 | all ones exactly when a >= b |
| ConstantTime.IsZeroMask | lib3rd/openssl/include/internal/constant_time.h:165-188 | all ones exactly when a is zero |
| ConstantTime.EqMask | lib3rd/openssl/include/internal/constant_time.h:190-199 | all ones exactly when a equals b |
| ConstantTime.SelectIsConditional | lib3rd/openssl/include/internal/constant_time.h:276-288 | selection by a mask is a conditional |
| ConstantTime.SelectByteIsConditional | lib3rd/openssl/include/internal/constant_time.h:290-295 | so is the byte form, although the mask is widened |
| ConstantTime.CondSwapBuff | lib3rd/openssl/include/internal/constant_time.h:373-387 | swaps the first len bytes or leaves them, also when both pointers are one |
| ConstantTime.OrRow | lib3rd/openssl/include/internal/constant_time.h:409-411 | one row is ORed in under mask 0xff and nothing under mask 0 |
| ConstantTime.Lookup | lib3rd/openssl/include/internal/constant_time.h:394-413 | leaves row idx in out, or zeros when there is no such row, although idx wraps below zero |
| PacketReader.PACKET.Forward | lib3rd/openssl/include/internal/packet.h:30-34 | drops exactly len bytes from the view |
| PacketReader.PACKET.GetNet | lib3rd/openssl/include/internal/packet.h:136-276 | the big-endian number of 1, 2 or 3 bytes, or failure without a change |
| PacketReader.PACKET.GetBytes | lib3rd/openssl/include/internal/packet.h:329-357 | a pointer to the next bytes, or failure without a change |
| PacketReader.PACKET.TakeVector | lib3rd/openssl/include/internal/packet.h:487-490 | the length and then that many bytes, succeeding exactly when a whole vector is there |
| PacketReader.PACKET.TakeWholeVector | lib3rd/openssl/include/internal/packet.h:509-515 | succeeds exactly when the vector is whole and nothing is left over |
| PacketReader.GetLengthPrefixed | lib3rd/openssl/include/internal/packet.h:481-595 | sub-packet and rest in shared memory on success, both packets unchanged on failure, aliasing included |
| PacketReader.AsLengthPrefixed | lib3rd/openssl/include/internal/packet.h:503-570 | succeeds exactly when the vector uses up the packet |
| PacketReader.ReadVectors | lib3rd/openssl/include/internal/packet.h:481-595 | taking vectors off one packet until it is empty yields the list that `ReadAll` reads from its bytes, or fails with it |
| PacketReader.WholeVectors | lib3rd/openssl/include/internal/packet.h:499-520 | that is exactly when the packet is the encoding of one vector |
| PacketReader.ReadInvertsEncode | lib3rd/openssl/include/internal/packet.h:474-496 | reading an encoded vector gives it back with what follows |
| PacketReader.EncodeInvertsRead | lib3rd/openssl/include/internal/packet.h:474-496 | a successful read conserves every byte: prefix, vector, rest |
| PacketReader.ReadAllInvertsEncodeAll | lib3rd/openssl/include/internal/packet.h:481-595 | reading back any list of encoded vectors gives the list (section 3.4 of RFC 8446) |
| PacketReader.EncodeAllInvertsReadAll | lib3rd/openssl/include/internal/packet.h:481-595 | whatever reads as a list of vectors is the encoding of that list |

## Left out

- Sockets, TLS connections, epoll, the UDP and RPC dispatch, `system()` and logging: input and output with no property of their own.
- PEM loading, the RSA block operations, the MD5 compression function and protobuf serialization: parameters, as said under Assumptions. `HOST_c2l` is modelled, its use inside the compression function is not.
- `HandleWrite` (comm/erpc/erpc_handler.cpp:404-438): it slices an already sliced string by the running total, so no general theorem about the bytes sent is stated.
- `UpdateUserPerssion_Del` (modules/controller/sdp_controller_config.cpp:95-114): nothing calls it.
- The controller's scanning thread: its orders are arbitrary blacklist events of a gateway trace; interleaving inside one handler is not modelled, as the daemons handle one event at a time.
- Exceptions: a slice out of range ends a handler before it has changed anything; in a trace such a knock changes nothing, while the real process may stop.
- RsaChunks.RSAVerify: with less than one block of signature left, `RSA_verify` reads past it before the code returns -1 or the slice fails; the model says out of bounds at once. The signature is accepted in neither.
- RsaChunks.RSADecrypt: likewise for a last block that is too short, which the code reads past before it returns -1 or the slice fails.
- Controller.SDPController.ConFuncGetAccess: minting cannot fail in the model, so the early -1 return at modules/controller/sdp_controller_service_impl.cpp:112 is absent.
- SafeMath.MulU: the fallback divides by b, so b is not 0 there; SafeMath.MulDivU inherits this for its second factor. Negation, absolute value, and unsigned subtraction, division and remainder would add only easy members.
- Application.SDPApplication.FrequencyJudgment: the visit counter is unbounded, so 2^31 visits of one IP in one minute are outside the model.
- FrameCodec.Padding: the subtraction of the message size is done on integers, so the few sizes for which it would overflow an int are treated as if it did not.
- HashStream.CBLOCK: fixed at 64, the block size of MD5 (lib3rd/openssl/include/openssl/md5.h:38).
- ConstantTime: the value barriers, which only restrain the compiler, and the fixed-width copies of the same functions.
- PacketReader: peeking, copying and the 4-byte getters, which would add only easy members, and writable packets, which have no body in the header.
- Integer conversions of string sizes in the chunking loops, which matter only for strings of 2 GB and more.
