# Droidspaces: verified models of its hardest code

Dafny models of seven parts of Droidspaces, a container runtime for Android and
Linux written in C, with proofs about all inputs, all packets and all runs.

- **Rule tables** (`Ipt*.dfy`). Droidspaces edits the kernel's iptables tables
  without the iptables program: it reads a blob of entries of unequal sizes in
  which chain jumps, hook entries and policies are absolute byte offsets, and
  splices a rule in or filters rules out, re-basing every offset. `IptTable` is
  the blob, `IptRewrite` the value of both rewrites, `IptTraversal` the kernel's
  walk with its return stack, `IptMeaning` the proof that both rewrites preserve
  that walk, `IptPreserve` well-formedness and how removal meets insertion,
  `IptRules` the rules the program recognises and inserts, `IptInterface` all the
  rules of an interface set up and torn down, and `IptOps` the loops that patch
  verdicts in place and build the replacement. What a packet carries is part of
  the walk's state, so targets that change it and go on are covered. A table is
  *well formed* as the kernel hands it out: entries tile the blob, hooks and jumps
  point at entry starts, hook entries are distinct and not behind their policy, a
  policy and the entry before any hook not at offset 0 are unconditional final
  verdicts, and a jump goes to the next entry or out of every hook's range.
- **Seccomp** (`Seccomp.dfy`). A classic BPF machine, the filter Droidspaces
  emits with hand-computed jumps for each of the five architectures it names and
  any set of defined system calls, and the policy it decides.
- **Boot handshake** (`Handshake.dfy`). Monitor, intermediate and init over
  three pipes per reboot cycle, as a step system with open pipe ends, failing
  calls and deaths.
- **PTY input** (`PtyFlow.dfy`). The write queue in front of the PTY master with
  its watermarks and epoll interest.
- **DHCP server** (`Dhcp.dfy`, `DhcpServer.dfy`). The option list, the Internet
  checksum, the reply and the receive loop (RFC 2131, RFC 2132, RFC 1071).
- **Port forwards** (`PortText.dfy`, `PortTable.dfy`). Reading and printing the
  list, and the overlap-free table behind it.
- **Shell quoting** (`ShellQuote.dfy`). The `su -c` command string, and a shell
  tokeniser that must undo it (sections 2.2.1 to 2.2.3 and 2.3 of the
  POSIX.1-2017 Shell Command Language).

What the environment decides is a parameter: whether a packet matches a rule and
what an extension target does with it, the results of `write` and `realloc`,
failures of `unshare` and `fork`, deaths, the frames received.

Four promises turn out to hold only under a condition, which is proved exactly:
printing and re-reading port forwards (`PortTable.PrintRoundTrip`, with the
counterexample `PortText.MixedEndsAreLost`), repeating an accepted `--port` option
(`PortTable.CliAgain`, failing in `PortTable.LastPortRefused`), word boundaries in
a clipped command buffer (`ShellQuote.ClippedWords`, failing in
`ShellQuote.LongestArgument`), and touching no rule but one's own. Which entries
removal takes is exact in `IptRules.AcceptPrintTakes` and
`IptRules.MasqueradePrintTakes`, others' rules among them in
`IptRules.NarrowerRuleTaken` and `IptRules.NarrowerMasqueradeTaken`, and when a
table survives exactly in `IptInterface.SetUpUndone`, `IptRules.AcceptRoundTrip`
and `IptRules.MasqueradeRoundTrip`: when it held no such entry. A rule just
inserted comes out only if its interface name is not empty or its subnet address
not zero; the callers see to that, since `src/net/network.c:702` and
`src/net/iptables.c:1167` skip an empty name and the only subnet is the constant
172.28.0.0/16.

Where comments and code disagree the code is modelled: `src/net/dhcp.c:70` calls
the packet 564 bytes, its fields make 548; `src/seccomp.c:154` says the filter
array holds 72 instructions, it holds 74 and the longest program needs 52;
`src/net/iptables.c:244` speaks of positive verdicts, the test admits zero;
`src/net/iptables.c:11` promises to leave rules of others alone, removal takes
every ACCEPT on the interface and every MASQUERADE from the subnet and away from
it; `src/net/dhcp.c:469` says that frames are filtered on their source address, the
loop never looks at it; `src/container.c:1311` promises word boundaries without
the condition above.

## Model

| member | source | states |
|---|---|---|
| IptMeaning.RemovePreservesMeaning | src/net/iptables.c:479-732 | for every well-formed table, every hook, every packet and every outcome, the rewritten table ends with it if and only if the old table does when the removed rules never match; jumps, fall-throughs and hook entries that pointed at a removed rule included |
| IptMeaning.InsertPreservesMeaning | src/net/iptables.c:329-470 | from every other hook the new table walks as the old one, step for step; from the chosen hook it gives the new rule's verdict if the rule decides the packet and otherwise the old walk of what the rule left of it |
| IptMeaning.RemoveKeepsPush | src/net/iptables.c:286-323 | removal turns no jump that saves its return position into a fall-through, except a jump that then lands on a final policy |
| IptMeaning.RemoveFilters | src/net/iptables.c:286-323 | every surviving entry, resolved to indices, is the old entry with its jump aimed at the old target or its next survivor, and so are hook entries and underflows |
| IptMeaning.InsertExtends | src/net/iptables.c:387-419 | every old entry, resolved to indices, keeps its target, its push behaviour and its successor; every other hook keeps its entry and policy |
| IptTraversal.ExtendedRun | src/net/iptables.c:409-419 | two programs that differ by one instruction at the head of a chain run in lockstep from matching states, for every amount of fuel |
| IptTraversal.FilteredForward | src/net/iptables.c:577-681 | a finished walk of the old program, skipping dead entries, finishes the same in the filtered program |
| IptTraversal.FilteredBackward | src/net/iptables.c:577-681 | and conversely: the filtered program never finishes a walk the old one does not |
| IptPreserve.InsertKeepsWellFormed | src/net/iptables.c:387-419 | after insertion entries still tile the blob, every offset is an entry start, sizes and counts agree |
| IptPreserve.RemoveKeepsWellFormed | src/net/iptables.c:577-681 | the same after removal; every hook's policy is the same entry as before, moved down past the removed ones |
| IptPreserve.RemoveUndoesInsert | src/net/iptables.c:329-470 | removing the inserted entry gives back the exact table: entries, verdicts, hook entries, underflows, size and count |
| IptPreserve.RemoveAfterInsert | src/net/iptables.c:387-669 | insertion and removal commute, to the exact table: removing any removable entries from a table with a rule inserted gives the table without them with the rule inserted, or just without them if the rule is removed too |
| IptRules.RemoveMatchingAfterInsert | src/net/iptables.c:554-669 | removal by any fingerprint at any hook, below or above other rules, takes a freshly inserted rule exactly if it is in range and recognised, and does to the rest what it would have done without it |
| IptInterface.TearDownForgetsSetUp | src/net/iptables.c:1166-1215 | whatever the filter table held, setting up INPUT -i, FORWARD -i and FORWARD -o and then removing FORWARD -i, FORWARD -o and INPUT -i leaves the old table as if it had only been torn down |
| IptInterface.SetUpUndone | src/net/iptables.c:1047-1115 | it leaves the exact old table if and only if that held nothing the teardown takes, in particular if none of the three rules was there |
| IptRules.AcceptPrintTakes | src/net/iptables.c:564-574 | removal takes exactly the ACCEPT entries with our interface fields, whatever else they match on |
| IptRules.NarrowerRuleTaken | src/net/iptables.c:564-574 | so an ACCEPT on the interface that is narrower by address or further matches is taken for ours by removal and for present by the existence test (lines 211-233) |
| IptRules.MasqueradePrintTakes | src/net/iptables.c:557-562 | removal takes exactly the MASQUERADE entries from our subnet and away from it, whatever interfaces and further matches they have |
| IptRules.NarrowerMasqueradeTaken | src/net/iptables.c:557-562 | so a MASQUERADE narrowed by an output interface or further matches is taken for ours by removal and for present by the existence test |
| IptRules.ExistsAccept | src/net/iptables.c:211-233 | the existence test finds an ACCEPT for an interface exactly if in the hook's range stands an entry where the kernel stops with ACCEPT, or one named so, whose interface is the given one |
| IptRules.ExistsMasquerade | src/net/iptables.c:211-233 | it finds a MASQUERADE exactly if in the hook's range stands one for the given address and mask |
| IptRules.MarksExactly | src/net/iptables.c:554-597 | removal takes exactly the entries in the hook's range that carry its fingerprint |
| IptRules.AcceptRuleMatches | src/net/iptables.c:990-1012 | the inserted ACCEPT matches everything but for its one interface, which it names in full |
| IptRules.EnsuredAcceptMeaning | src/net/iptables.c:971-1015 | if an ACCEPT on the interface was in the hook's range, ensuring changes no walk; else every packet the rule matches ends with ACCEPT at its hook and every other walk is as before |
| IptInterface.SetUpMeaning | src/net/network.c:699-706 | if neither hook held an ACCEPT on the interface, after set-up INPUT accepts what comes in on the interface, FORWARD what comes in on it or leaves by it, and every other walk is as before; only if the range of FORWARD spans the head of INPUT does FORWARD not get its -i rule |
| IptInterface.SetUpIdempotent | src/net/network.c:681-706 | setting up twice is setting up once, on every filter table |
| IptRules.ExistsAfterInsert | src/net/iptables.c:190-239 | after an insertion the existence test finds at every hook what it found before, and the new rule exactly if it is in that hook's range |
| IptRules.RemoveForgetsEnsure | src/net/iptables.c:554-669 | whether or not it inserted, ensuring leaves no trace in a table cleared of the rule's fingerprint |
| IptRules.EnsureUndone | src/net/iptables.c:554-669 | ensuring and removing gives back the exact table if and only if it held nothing removal takes, and removal recognises the rule or one like it was there all along |
| IptRules.AcceptRoundTrip | src/net/iptables.c:971-1015 | for an interface ACCEPT this is if and only if nothing removal takes was there, and a name is given or a rule like it was there; when ensuring inserted it, if and only if a name is given |
| IptRules.MasqueradeRoundTrip | src/net/iptables.c:865-931 | the same for MASQUERADE with a subnet address that is not zero in place of a name |
| IptRules.AcceptRuleOurs | src/net/iptables.c:139-173 | the inserted ACCEPT satisfies the fingerprint removal searches for if and only if the interface name is not empty |
| IptRules.MasqueradeRuleOurs | src/net/iptables.c:557-562 | the inserted MASQUERADE satisfies the fingerprint removal searches for if and only if the subnet address is not zero |
| IptRules.EnsureIdempotent | src/net/iptables.c:892-898 | after ensuring a rule it is found, a second ensure leaves the table unchanged, and the table is well formed |
| IptRules.RemoveMatchingSound | src/net/iptables.c:554-609 | removal by any fingerprint keeps the table well formed and every packet's outcome, the removed rules taken as never matching |
| IptRules.MarksRemovable | src/net/iptables.c:554-597 | what a fingerprint removes is never a policy, never a jump and never outside the hook |
| IptOps.FixupJumpTargets | src/net/iptables.c:247-273 | the in-place walk raises exactly the standard verdicts at or after the insertion point |
| IptOps.FixupJumpTargetsRemoved | src/net/iptables.c:286-323 | the in-place walk re-bases exactly the verdicts that name a recorded offset |
| IptOps.InsertRuleAtHook | src/net/iptables.c:353-419 | the replacement built is the table with the rule inserted |
| IptOps.WalkAndFilter | src/net/iptables.c:535-611 | the first pass copies exactly the survivors and records every entry's offset and the bytes removed before it |
| IptOps.RemoveMatchingRules | src/net/iptables.c:505-681 | no replacement exactly when nothing matches; otherwise the replacement is the table with the marked entries removed |
| IptOps.RuleExistsInHook | src/net/iptables.c:190-239 | the walk finds an entry if and only if one in the hook's range meets all given criteria; for what the program asks, an ACCEPT on the interface or a MASQUERADE for the source |
| IptOps.XtTable.InsertIfaceAccept | src/net/iptables.c:971-1021 | the table stays as it is if it has an ACCEPT on the interface in the hook's range, else it gets the rule; it stays well formed |
| IptOps.XtTable.EnsureMasquerade | src/net/iptables.c:865-937 | the same for MASQUERADE |
| IptOps.XtTable.InstallInterfaceRules | src/net/network.c:699-706 | the table becomes the set-up table |
| IptOps.XtTable.RemoveInterfaceRules | src/net/iptables.c:1166-1215 | the table becomes the torn-down table |
| IptOps.XtTable.RemoveRules | src/net/iptables.c:479-732 | the table becomes the table without the matching rules and stays well formed |
| Seccomp.ProgramDecidesPolicy | src/seccomp.c:45-250 | for each of the five architectures the source names, every set of defined calls, both flags, every call number, argument and architecture tag, the emitted program returns exactly the policy's action |
| Seccomp.ProgramClosed | src/seccomp.c:50-250 | every jump lands on an instruction of the program, whose last one returns and which has at most 52, fewer than the array's 74 |
| Seccomp.InsideReturns | src/seccomp.c:50-250 | such a program, entered at any instruction with anything in the accumulator, ends in a return |
| Seccomp.ExecSeq | src/seccomp.c:53-245 | a block whose jumps stay inside never leaves it otherwise than at its end or by a return, wherever it stands |
| Seccomp.RebootMeaning | src/seccomp.c:181-197 | entered with anything in the accumulator, the block answers exactly the magic reboot and otherwise leaves the call number there |
| Seccomp.SocketMeaning | src/seccomp.c:156-168 | the same for socket(AF_ALG) |
| Seccomp.CloneMeaning | src/seccomp.c:136-143 | the clone block may leave the clone flags in the accumulator |
| Seccomp.UnshareMeaning | src/seccomp.c:124-133 | the unshare block answers a new user namespace and otherwise leaves the call number |
| Seccomp.SandboxingLiftsNamespaceRules | src/seccomp.c:114-144 | allowing sandboxing changes the action exactly for clone3 where it is not killed and for new user namespaces that nothing else stops, and denies nothing that was allowed |
| Seccomp.KeyringProgramDecides | src/seccomp.c:296-338 | the keyring filter kills foreign architectures, answers keyctl with ENOSYS and allows the rest, its jumps inside |
| Seccomp.ApplyMinimal | src/seccomp.c:45-258 | with noseccomp nothing is installed; otherwise what is installed fits the array, keeps its jumps inside and decides the policy |
| Handshake.HandshakeSafety | src/monitor.c:425-500 | in every run over any number of reboot cycles init has a full handshake only after that cycle's wiring and gateway rewire, anything less only if the intermediate was killed, and while the intermediate lives a blocked read is never released by end of file |
| Handshake.WiringWhileInitWaits | src/monitor.c:440-500 | from the start of the wiring until the handshake is sent, init has sent READY and waits or is dead, with nothing in the pipe and no end of file to let it go on, even if the intermediate was killed |
| Handshake.RebootsAsInitDied | src/monitor.c:389-403 | in every run the intermediate reports a reboot exactly if it lived to see init die of one, and that alone lets a waiting monitor boot again, from a fresh start |
| Handshake.MonitorReachesWaitLoop | src/monitor.c:303-404 | whatever fails or dies, a cycle has at most 21 steps and some process can step until the monitor waits |
| Handshake.EveryCycleReachesWaitLoop | src/monitor.c:425-500 | in every cycle, when nothing can move the monitor is gone, or it waits, the intermediate waits and init runs with a full handshake |
| Handshake.StuckMeansUp | src/boot.c:145-195 | the same for any state that keeps the invariant |
| Handshake.NextKeepsInv | src/monitor.c:234-263 | every step of every process keeps who holds which pipe end, where the process id is and what a handshake in the pipe means |
| Handshake.CycleIsBounded | src/monitor.c:303-404 | no run within a cycle is longer than its rank |
| PtyFlow.KeystrokesConserved | src/daemon.c:513-569 | in every run the 256 KiB limit never drops anything, and unless an allocation fails the bytes the master took followed by the queue are the payloads of 1 to 8192 bytes received, in order |
| PtyFlow.RunKeeps | src/daemon.c:550-616 | in every run suspended means at least LOW queued, not suspended less than HIGH, and EPOLLOUT is armed exactly when the queue is not empty |
| PtyFlow.Hysteresis | src/daemon.c:557-616 | in every run, whatever comes next, an active connection is suspended exactly when the queue reaches 192 KiB and a suspended one stays so exactly while it holds 64 KiB |
| PtyFlow.DirectWrite | src/daemon.c:517-523 | an input frame goes straight to the master as far as that takes it exactly if nothing is queued |
| PtyFlow.FlushTakes | src/daemon.c:592-603 | a flush takes what its writes take, up to the first that takes nothing or the end of the queue |
| PtyFlow.GrowthIsLeast | src/daemon.c:531-542 | the buffer grows to the first doubling that suffices, or to the limit |
| PtyFlow.SuspendedCanResume | src/daemon.c:590-616 | a suspended connection has an armed, long enough queue, and a flush taken whole resumes it and disarms EPOLLOUT |
| PtyFlow.Session.ReceiveFrame | src/daemon.c:513-569 | the buffer with its direct write, growth by doubling and copying behaves as the queue does |
| PtyFlow.Session.Flush | src/daemon.c:590-616 | writing from the head, moving the rest down and updating the interest behaves as the queue does |
| PtyFlow.Grown | src/daemon.c:531-540 | the doubling loop ends with room for what is needed and never beyond the limit |
| Dhcp.LookupInvertsEncode | src/net/dhcp.c:123-167 | looking up a code in any written option list, pads included, gives the first option of that code or nothing |
| Dhcp.OptPut | src/net/dhcp.c:123-132 | the option is written behind the others, or refused without effect exactly when it does not fit |
| Dhcp.OptGet | src/net/dhcp.c:145-167 | on arbitrary bytes the scan ends in bounds with what the specification finds, clipped to the caller's buffer |
| Dhcp.ReplyOptionsReadBack | src/net/dhcp.c:206-231 | a client finds in every reply the message type, server, times in seconds, mask, router and name servers in order, under their numbers of RFC 2132 |
| Dhcp.ReplyLength | src/net/dhcp.c:231-234 | the length sent ends right behind the End option, and every option is found within it |
| Dhcp.ChecksumVerifies | src/net/dhcp.c:170-182 | for every even length up to 131074 bytes a header with its checksum stored sums to 0xFFFF |
| Dhcp.ReceiverVerifies | src/net/dhcp.c:170-182 | so it does for a receiver that reads the words in network order |
| Dhcp.Checksum | src/net/dhcp.c:170-182 | the 32-bit accumulator and the fold loop compute the complement of the folded word sum |
| DhcpServer.BuildReply | src/net/dhcp.c:189-234 | the reply is the specified one, options laid out as a closed list in a zeroed buffer |
| DhcpServer.FinishIpHeader | src/net/dhcp.c:265-277 | the header names the gateway, broadcast, UDP and the right total length, and its checksum makes it sum to 0xFFFF in either byte order |
| DhcpServer.ParsedExactly | src/net/dhcp.c:409-466 | a frame is read as a request exactly if it came in on the own interface and is Ethernet, an IPv4 header as long as it says with UDP, port 67 and a BOOTP request with the cookie |
| DhcpServer.AnsweredExactly | src/net/dhcp.c:471-509 | exactly a DISCOVER, or a REQUEST whose server option is absent, not 4 bytes or the gateway, is answered; an OFFER to the one, an ACK to the other, with the one address and the client's own fields |
| DhcpServer.HandleFrame | src/net/dhcp.c:409-509 | the chain of tests answers exactly such frames, in exactly this way |
| DhcpServer.RepliesJustified | src/net/dhcp.c:372-510 | over any events every reply answers, as above, the one frame of its own turn, up to which the loop met no stop and no error but interrupted calls |
| DhcpServer.RequestsServed | src/net/dhcp.c:476-509 | conversely every frame that deserves an answer is answered if the loop gets to it |
| DhcpServer.ServerLoop | src/net/dhcp.c:372-510 | the loop sends exactly the specified replies, in order |
| PortTable.PrintRoundTrip | src/config.c:737-751 | every table prints to fewer than 1024 characters, and loading them gives the table back if and only if each rule has both ends or neither |
| PortText.RuleReadsBack | src/config.c:418-525 | a printed rule reads back as itself if and only if it has both ends or neither |
| PortText.MixedEndsAreLost | src/config.c:464-510 | "5-5:80" is accepted, and what is printed for it is rejected |
| PortText.TokensOfPrint | src/config.c:739-749 | a printed list splits into exactly its printed rules |
| PortText.TokensOfJoin | src/config.c:421-422 | the tokens of any text are the non-empty pieces between its commas |
| PortText.SymmetricShorthand | src/config.c:439-447 | a spec without a colon reads as the same spec on both sides |
| PortText.DefaultProtocol | src/config.c:429 | no protocol reads as tcp |
| PortText.LongProtocol | src/config.c:432-437 | only three characters of a protocol are looked at |
| PortTable.RulesFormPartialInjection | src/main.c:723-781 | after any sequence of config lines and --port options at most 32 rules map (protocol, host port) to container ports, single-valued and injective, one rule to a port |
| PortTable.PassesKeep | src/config.c:527-573 | every pass keeps the rules valid, of equal widths and free of overlaps, and drops or moves none |
| PortTable.LoadIdempotent | src/config.c:410-580 | loading the same line again, at once or after any other config lines and options, changes nothing |
| PortTable.CliAgain | src/main.c:621-787 | repeating an accepted option changes nothing, and is accepted again if and only if the list is not full or the option is empty |
| PortTable.LastPortRefused | src/main.c:622-625 | behind 31 forwarded ports "32:32/tcp" is accepted once and refused again |
| PortTable.AddExactly | src/config.c:527-573 | a rule is appended exactly if no earlier rule of its protocol has a host port or a container port in common with it |
| PortTable.LoadedExactly | src/config.c:421-576 | a line appends, token by token and up to 32 rules, exactly the readable rules that share no port with those before |
| PortTable.CliExactly | src/main.c:621-787 | an option does the same, but stops with an error at a token that finds the list full or cannot be read |
| PortTable.BothProtocols | src/config.c:533 | the same ports load for tcp and for udp |
| PortTable.ForwardList.LoadConfig | src/config.c:418-580 | filling the slots in place computes that list, from the first 1023 characters |
| PortTable.ForwardList.AddPortOption | src/main.c:614-787 | the same for --port, with its error return |
| ShellQuote.QuotingPreservesWords | src/container.c:1308-1331 | whatever their characters, the shell reads the quoted arguments back word for word |
| ShellQuote.ClippedWords | src/container.c:1413-1426 | clipped to a buffer the arguments survive if and only if they fit, or only the last two quotes after a final quote character are missing |
| ShellQuote.LongestArgument | src/container.c:1413-1426 | in the 4096-byte buffer echo with 4086 letters survives, with 4087 it does not |
| ShellQuote.ShellQuoteAppend | src/container.c:1312-1331 | the offset stays below the size, the text is terminated, and it is the quoted text clipped to the buffer |
| ShellQuote.JoinArguments | src/container.c:1419-1426 | the command string is the clipped quotation of all arguments, with the exact condition under which the shell reads them back |

## Left out

- Bytes inside an iptables entry are record fields, and offsets are unbounded integers; the source's 32-bit arithmetic agrees with them for tables below 2 GiB.
- Matches that keep state of their own (limit, recent): whether a rule matches depends on the packet's content alone.
- Blobs that are not well formed: the walks then stop early; the kernel never hands out such a blob.
- The kernel's bound on its jump stack and its own table validation are not part of this model.
- getsockopt, setsockopt, the EAGAIN refetch loop and the iptables-binary fallbacks; nothing is claimed about concurrent table writers.
- Interface names of 16 characters or more, for which the source relies on its callers.
- The DNAT rules, the MSS clamp and the state file, which are shell commands and file I/O.
- A build for an architecture outside the five named ones: its filter compares no architecture tag and kills every call.
- Installing the filters with prctl, and the KernelSU ioctl.
- The choice between no keyring filter and one, which depends on the kernel version alone.
- Killing the monitor from outside, and file-descriptor numbers: each reboot cycle's pipes are fresh objects.
- Pipe reads interrupted by signals; the monitor ignores the signals that could do so.
- The PTY master closing under a session, which ends it; window-size frames and output from the child, which do not touch the queue.
- Sending the Ethernet and UDP headers of a DHCP reply, the socket calls, and frames beyond the 2048-byte receive buffer.
- A big-endian host for the checksum: words are loaded little-endian.
- Integer overflow inside atoi, which C leaves undefined; the NULs that the port parser writes into its copy are substrings here.
- The gate that writes port forwards only in NAT mode.
- Single-argument commands, which are passed to the shell as they are.
- External lock files, mounts, namespaces, cgroups, SELinux, capabilities, /proc scanning, status and help output, the Android library and the Wayland server: kernel behaviour, I/O or easy members.
