# Verified models of the GRUB utility and network code

This Dafny project models the parts of GRUB for DOS in which something can go wrong without any
hardware being at fault, and proves what they are for.

- **Option scanning** (`GetoptSpec`, `Getopt`, `GetoptScanner`, `GetoptOrdering`, `GetoptMeaning`): GNU `getopt`, which permutes `argv`
  in place and can be resumed after every option. `GetoptSpec.Parse` says what a command line means
  without moving anything; the scanner is proved to report exactly that, call by call and over a whole
  run, and to leave the vector as a stable partition. `GetoptMeaning` closes the circle: whoever declares
  options and writes uses of them gets exactly those uses back.
- **TFTP client** (`TftpProtocol`, `TftpSafety`, `TftpSize`, `OackText`, `TftpClient`): client, server and a network that loses,
  duplicates and reorders are one state machine (RFC 1350 with the options of RFC 2347 to 2349).
  Safety is proved over all runs; `buf_fill`, `tftp_read` and `tftp_dir` are proved to be runs of that
  machine and to show the file through the sliding buffer.
- **Receive rings** (`FrameQueue`, `Ns8390Spec`, `Ns8390Ring`, `Ns8390`, `Rtl8139Spec`, `Rtl8139Ring`,
  `Rtl8139`): a page
  ring and a byte ring shared with a chip that goes on receiving while the driver copies; both refine one
  queue of frames, and each a small machine that says exactly which frames are handed over.
- **Number printers and parsers** (`Numerals`, `Printers`, `Hexadecimal`), the **device map file**
  (`DeviceMap`, `DeviceMapLines`), the **DEPCA signature search** (`Depca`) and the **CHS addresses** (`Chs`).

Code that updates variables, arrays or buffers in place is modelled by methods and classes that do the
same, proved against functions; the laws are lemmas about those functions. Ghost fields record what
the real fields mean (which elements were consumed, which bytes were received, which frames are queued).

What proving brought to light:

- After the first call, `getopt` looks options up in an option string that still has its leading `+` or
  `-`: that character becomes an accepted option, and a `:` behind it no longer selects `:` as the reply.
  `ScanUnaffectedIff` says exactly for which vectors this changes a reply, and `DashBecomesAnOption` is one.
- A call after the one that returned -1 reads the operands behind `--` as options (`NextAfterEnd`,
  `OperandReadAsOption`).
- The TFTP block counter is compared without wrapping around, so a file of more than 65535 blocks can
  never be read to its end, although no wrong byte is ever stored (`ReadableIff`).
- `tftp_read` compares a signed amount with an unsigned size. If the file position is neither in the
  buffer nor right behind it, bytes are copied that were never received (`CopiesReceivedBytesIff`, `TftpRead`,
  and a call that does so in `SeekForward`).
- `tftp_dir` takes twice the length of a file for its size exactly if, in the first session, a packet of
  another kind came before the announcement of the size, and in the second nothing was announced
  (`TftpDir` with `CountedTwice`; such a run in `SizeCountedTwice`).
- A frame longer than 1514 bytes stays at the head of the ns8390 ring for good, and nothing is handed over
  any more (`BadLengthBlocks`). For that reason, and if a damaged frame has cleared the receive status bit,
  handling an overrun need not empty the ring (`RxOverrun` says exactly when it does; runs in which it does
  not in `OversizeStaysInRing` and `DamageKeepsRingFull`).
- `%d` does not print the least integer; `itoa` does (`DecimalIsRightIff`, `ItoA`).
- A device map line longer than 1023 characters and a newline comes back cut off (`ReadBackIff`).

## Model

| member | source | states |
|---|---|---|
| GetoptSpec.ParseIsStablePartition | grub4dos/lib/getopt.c:93-105 | the parse loses, duplicates and reorders nothing: the vector is an order-preserving merge of the options and the operands |
| Getopt.RotateInPlace | grub4dos/lib/getopt.c:311-384 | the block swaps amount to one rotation: the two segments change places, each in its order, and all else stays |
| Getopt.SwapRuns | grub4dos/lib/getopt.c:349-379 | the inner loop exchanges two disjoint runs element by element |
| Getopt.RoundBottomShort | grub4dos/lib/getopt.c:345-359 | a round with a shorter lower segment leaves a smaller rotation that still leads to the same final vector |
| Getopt.RoundTopShort | grub4dos/lib/getopt.c:361-375 | the same for the other kind of round |
| Getopt.FindLong | grub4dos/lib/getopt.c:649-686 | for every table: the first exact match wins even after an ambiguity, then the only abbreviation; otherwise ambiguous or not found |
| GetoptScanner.Scanner.constructor | grub4dos/lib/getopt.c:118-156 | the static variables before the first call |
| GetoptScanner.Scanner.Initialize | grub4dos/lib/getopt.c:392-456 | the ordering that the option string and POSIXLY_CORRECT select, and empty ranges |
| GetoptScanner.Scanner.Exchange | grub4dos/lib/getopt.c:307-385 | the vector is rotated and the two indices delimit the skipped operands at their new place |
| GetoptScanner.Scanner.GatherOptions | grub4dos/lib/getopt.c:556-564 | afterwards all options read come first, with the operands skipped right before `optind` |
| GetoptScanner.Scanner.SkipOperands | grub4dos/lib/getopt.c:566-571 | skipping operands moves to the next option or the end and does not change what the whole vector means |
| GetoptScanner.Scanner.Terminate | grub4dos/lib/getopt.c:574-602 | at `--` the vector is complete: options and `--` first, all operands after, `optind` at the first of them |
| GetoptScanner.Scanner.Advance | grub4dos/lib/getopt.c:545-620 | the three ways to go on (end, operand reported in order, option found) against the parse of the untouched suffix |
| GetoptScanner.Scanner.LongOptionStep | grub4dos/lib/getopt.c:637-768 | return value, `optarg`, `optopt`, `*longind`, `*flag` and the number of arguments taken are those of the long-option event |
| GetoptScanner.Scanner.ShortOptionStep | grub4dos/lib/getopt.c:770-966 | one character of a cluster: outcome, characters left, and elements moved past |
| GetoptScanner.Scanner.Next | grub4dos/lib/getopt.c:515-966 | a call reports the first event of the reading and leaves exactly the rest of it, or returns -1 with the vector partitioned; the index chain 1 <= first <= last <= optind <= argc is kept |
| GetoptScanner.Scanner.ScanAll | grub4dos/lib/getopt.c:454-515 | for every option string, calling until the first -1 ends; the replies are those (up to an option that itself returns -1, if a table has one) of the permutation-free parse of the original vector, whose first event is read with the stripped string and the others with the whole one; the vector becomes program name, options in order, operands in order, with `optind` at the first operand |
| GetoptScanner.Scanner.NextAfterEnd | grub4dos/lib/getopt.c:545-620 | a call after the end reports the first event of the operands that are left, read as a new vector, and keeps what is before them |
| GetoptScanner.QuietIff | grub4dos/lib/getopt.c:545-620 | a scan reports nothing exactly if only operands come before `--`, as the ordering allows |
| GetoptScanner.OnlyTerminatorHides | grub4dos/lib/getopt.c:574-602 | without a `--`, a call after the end in PERMUTE order finds nothing either |
| GetoptScanner.OperandReadAsOption | grub4dos/lib/getopt.c:574-602 | an operand behind `--` that a call after the end reports as an option |
| GetoptScanner.TerminatedFinal | grub4dos/lib/getopt.c:579-602 | both branches at `--` (rotate, or just move the index) reach the final partition |
| GetoptScanner.LongStepped | grub4dos/lib/getopt.c:637-768 | a long option uses up the first event of the whole reading |
| GetoptScanner.ShortStepIsFirstEvent | grub4dos/lib/getopt.c:770-966 | one resumed step equals the first event of the whole cluster, and what is left gives the others |
| GetoptScanner.ShortStepped | grub4dos/lib/getopt.c:770-966 | a cluster character uses up the first event of the whole reading, across elements |
| GetoptScanner.EventsAreNotTheEnd | grub4dos/lib/getopt.c:471-474 | no reported option is mistaken for the end of the scan |
| GetoptScanner.OrderingCharacterComesBack | grub4dos/lib/getopt.c:525-531 | which characters the stripped and the whole option string treat alike, and that PERMUTE order is never affected |
| GetoptOrdering.FirstSameIff | grub4dos/lib/getopt.c:770-966 | a cluster character gets the same reply from both strings exactly in the listed cases, and then the scan goes on at the same place |
| GetoptOrdering.ClusterSameIff | grub4dos/lib/getopt.c:770-966 | the same for a whole cluster and whatever is reported behind it |
| GetoptOrdering.LongSameIff | grub4dos/lib/getopt.c:719-732 | a long option gets the same reply from both exactly if no required argument is missing or both report that alike |
| GetoptOrdering.SameFromIff | grub4dos/lib/getopt.c:515-966 | a scan with the whole string gives the replies of one with the stripped string exactly if no element it reaches is read differently |
| GetoptOrdering.ScanUnaffectedIff | grub4dos/lib/getopt.c:392-456 | stripping the ordering character in the first call only is harmless exactly if nothing after the first reply is read differently; then the vector ends up the same too |
| GetoptOrdering.AgreeingStrings | grub4dos/lib/getopt.c:392-456 | no vector is affected if the ordering character is the same option in both strings and so is the reply for a missing argument |
| GetoptOrdering.PlainStringsAgree | grub4dos/lib/getopt.c:392-456 | so it is for every string without an ordering character, and for `--` |
| GetoptOrdering.DashBecomesAnOption | grub4dos/lib/getopt.c:525-531 | the vector `-a-` with the option string `-a`: the second reply is an option instead of a complaint |
| GetoptMeaning.ShortOptionMeans | grub4dos/lib/getopt.c:919-964 | what "-c" and "-cARG" report depends only on the colons behind the first `c` of the option string: no argument and the scan goes on; the rest of the element or the whole next one; the rest of the element only; and how a missing argument is reported |
| GetoptMeaning.SpelledDeclares | grub4dos/lib/getopt.c:480-490 | the option string spelled from a list of declared options declares just these |
| GetoptMeaning.LookupMeans | grub4dos/lib/getopt.c:649-686 | a text means the first entry of that name, otherwise the only one it abbreviates; nothing if it abbreviates none, or several |
| GetoptMeaning.LongMeans | grub4dos/lib/getopt.c:692-743 | an entry with and without `=`, with its argument in the next element, unwanted or missing: reply, argument, index and flag |
| GetoptMeaning.LongMeansNothing | grub4dos/lib/getopt.c:676-686 | a text that means nothing is complained about, with or without an argument |
| GetoptMeaning.UseInFront | grub4dos/lib/getopt.c:515-966 | whatever follows, a use in front of it is reported as written |
| GetoptMeaning.LineMeans | grub4dos/lib/getopt.c:458-503 | a whole command line of uses, in all three orderings and with every ending, is read as what it was written for |
| GetoptMeaning.ReadCommandLine | grub4dos/lib/getopt.c:458-503 | for all declarations and uses, the replies of the whole scan are those uses in their order, and the operands are found behind everything else |
| GetoptMeaning.VisibleEffects | grub4dos/lib/getopt.c:734-742 | what an event means for `optarg`, `optopt`, `*longind` and the flag variables |
| TftpProtocol.ShortExactlyLast | grub4dos/netboot/fsys_tftp.c:249-251 | a block is shorter than the block size exactly if it is the last one (section 6 of RFC 1350) |
| TftpSafety.NegotiateHonest | grub4dos/netboot/fsys_tftp.c:132-183 | options of an honest OACK leave the agreed block size and the true file size |
| TftpSafety.WireNumberIsExact | grub4dos/netboot/fsys_tftp.c:205-213 | although 16 bits travel, an accepted number is the number of the block whose bytes come with it |
| TftpSafety.StepKeepsInv | grub4dos/netboot/fsys_tftp.c:57-256 | every event of server, network and client keeps the protocol invariant |
| TftpSafety.RunKeepsInv | grub4dos/netboot/fsys_tftp.c:57-256 | so does every run |
| TftpSafety.DeliveredIsPrefix | grub4dos/netboot/fsys_tftp.c:57-256 | in every run the stored bytes are the first `prevblock` blocks of the file, each once; end of file means that all of it is stored |
| TftpSafety.AcksWhatIsStored | grub4dos/netboot/fsys_tftp.c:185-247 | every ACK carries the number of the last block stored, after storing; an OACK is answered with 0 and stores nothing |
| TftpSafety.StoredGrows | grub4dos/netboot/fsys_tftp.c:232-247 | block numbers and stored bytes never decrease, so ACK numbers do not either |
| TftpSafety.AskedIs | grub4dos/netboot/fsys_tftp.c:73-83 | each of up to 20 repeated requests goes out from a new port and can be answered there |
| TftpSafety.ReadableIff | grub4dos/netboot/fsys_tftp.c:211-213 | with or without options, and however many requests up to 20 are lost, a run that reads the file to its end exists exactly if the file has at most 65535 blocks |
| TftpSafety.ActionIff | grub4dos/netboot/fsys_tftp.c:103-252 | which packets make the client fail, stop, refuse, ignore, call off or acknowledge, each exactly when |
| TftpSafety.NegotiatesIff | grub4dos/netboot/fsys_tftp.c:132-183 | options are accepted exactly if no block size is below 512, no size negative and none unknown |
| TftpSafety.BadOptionEnds | grub4dos/netboot/fsys_tftp.c:132-183 | what the first bad option leaves |
| TftpSafety.AnnouncedSize | grub4dos/netboot/fsys_tftp.c:144-151 | in every run `filemax` is only ever set to the true size |
| TftpSize.SizeAfter | grub4dos/netboot/fsys_tftp.c:112-183 | a packet sets `filemax` exactly if it is an OACK that is accepted and tells the size |
| TftpSize.AnnouncedEarly | grub4dos/netboot/fsys_tftp.c:121-127 | an announcement is only heard while no block is stored |
| TftpSize.CountedTwiceNeeds | grub4dos/netboot/fsys_tftp.c:455-482 | the size can only be counted twice if a packet of another kind and an announcement arrive |
| TftpSize.SizeCountedTwice | grub4dos/netboot/fsys_tftp.c:455-482 | a run for a file of one byte, read to its end, with the size 2 |
| OackText.TakeText | grub4dos/netboot/fsys_tftp.c:127-183 | the walk over the characters of an OACK, with every refusal, against its meaning on what is left of the text |
| OackText.WalkIsNegotiation | grub4dos/netboot/fsys_tftp.c:127-183 | on the text of a list of options, whatever lies behind it in the buffer, the walk does what the list says |
| OackText.RunningOnIsRefused | grub4dos/netboot/fsys_tftp.c:182-183 | a text whose value runs on behind the end of the packet is refused |
| OackText.UnknownRefused | grub4dos/netboot/fsys_tftp.c:155-175 | an option of any other name is refused |
| OackText.NoNumberRefused | grub4dos/netboot/fsys_tftp.c:137-151 | so is an option without a number |
| OackText.EndsAtNul | grub4dos/netboot/fsys_tftp.c:131-183 | the options end at a NUL or at the end of the packet |
| TftpClient.Tftp.AwaitReply | grub4dos/netboot/fsys_tftp.c:68 | what arrives was sent to this port, and waiting is a run of the protocol |
| TftpClient.Tftp.TakeOptions | grub4dos/netboot/fsys_tftp.c:131-183 | the option loop, against its recursive meaning |
| TftpClient.Tftp.Acknowledge | grub4dos/netboot/fsys_tftp.c:205-251 | the new variables and the ACK sent are those of the protocol step, and the buffer holds the received bytes |
| TftpClient.Tftp.Store | grub4dos/netboot/fsys_tftp.c:232-251 | a new block is appended to the window, and a short one ends the file |
| TftpClient.Tftp.HandlePacket | grub4dos/netboot/fsys_tftp.c:103-251 | one packet is one protocol step, whatever its kind |
| TftpClient.Tftp.Retry | grub4dos/netboot/fsys_tftp.c:68-100 | a timeout is a protocol step; the request goes out again exactly if no block was taken yet, the link is up and it was sent again fewer than 20 times |
| TftpClient.Tftp.TakePacket | grub4dos/netboot/fsys_tftp.c:103-252 | the loop goes on behind a packet exactly if that is not bad news |
| TftpClient.Tftp.Turn | grub4dos/netboot/fsys_tftp.c:57-252 | one turn of the loop: it goes on after a request that was sent again, and ends only for a cause |
| TftpClient.Tftp.BufFill | grub4dos/netboot/fsys_tftp.c:50-256 | the loop is a run of the protocol, ends for every schedule and leaves the buffer in step with the received prefix; it ends early only at the first packet of bad news, at an interrupt, or at a timeout with the link down, behind the first block or after 20 requests; so silence before the first packet, up to as often as the request is sent again, does no harm |
| TftpClient.CalmIsAccepted | grub4dos/netboot/fsys_tftp.c:103-252 | the client gives up only at an error, a packet of another kind or options it cannot accept |
| TftpClient.Tftp.ResetTransfer | grub4dos/netboot/fsys_tftp.c:261-271 | the variables of a new transfer, with an empty window at offset 0 |
| TftpClient.Tftp.SendRrq | grub4dos/netboot/fsys_tftp.c:258-299 | opening is a protocol step from a new port |
| TftpClient.CopiesReceivedBytesIff | grub4dos/netboot/fsys_tftp.c:359-364 | the first copy takes only received bytes exactly if the position is in the buffer or right behind it, or 0 when the file is opened again |
| TftpClient.BackwardSeekCopiesStaleBytes | grub4dos/netboot/fsys_tftp.c:359-364 | amounts for which it does not, after a seek backward |
| TftpClient.Tftp.SeekForward | grub4dos/netboot/fsys_tftp.c:318-407 | a call after a seek forward that claims to have read a byte, and gives a wrong one |
| TftpClient.ArrivalsAreScheduled | grub4dos/netboot/fsys_tftp.c:68 | the run of a call is told by the schedule: nothing arrives that was not in it |
| TftpClient.Tftp.Slide | grub4dos/netboot/fsys_tftp.c:377-382 | the second half of the buffer becomes the first and still shows the same bytes of the file |
| TftpClient.Tftp.MoveOut | grub4dos/netboot/fsys_tftp.c:366-383 | the bytes at the file position are copied, wherever that is, and a window stays one |
| TftpClient.Tftp.TakeFromBuffer | grub4dos/netboot/fsys_tftp.c:359-390 | with the position in the window, what is copied is the right part of the received bytes, all of it if it is there; otherwise the buffer is skipped; with the position behind the window, the whole amount is copied from what the buffer holds there |
| TftpClient.Tftp.ReadSome | grub4dos/netboot/fsys_tftp.c:357-404 | every turn extends the copied part of the file or the received part; it fails on a delivering network only at the end of the file or of the schedule |
| TftpClient.Tftp.ReadStale | grub4dos/netboot/fsys_tftp.c:357-404 | behind the window one turn of the loop claims the whole size |
| TftpClient.Tftp.TftpRead | grub4dos/netboot/fsys_tftp.c:318-407 | with the position in reach, a result other than 0 is `size`, and then `addr` is `file[filepos..filepos+size)`; it succeeds without any packet if the buffer has the range, and for any range within the file if the network comes round after at most 20 silences; with the position out of reach, the result is `size` and the bytes are those that happened to be in the buffer |
| TftpClient.Tftp.OpenAndFill | grub4dos/netboot/fsys_tftp.c:427-453 | after opening and filling, at least one block is stored unless the loop stopped at a packet of another kind |
| TftpClient.Tftp.AddBuffer | grub4dos/netboot/fsys_tftp.c:461-472 | one turn keeps the sum at the bytes discarded so far, plus the length of the file if an announcement was heard meanwhile |
| TftpClient.Tftp.AddUp | grub4dos/netboot/fsys_tftp.c:455-478 | the lengths add up to the length of the file, and to twice that exactly if an announcement was heard on the way |
| TftpClient.DirSize | grub4dos/netboot/fsys_tftp.c:427-482 | after two sessions the size is twice the length exactly if the run is one of those described |
| TftpClient.Tftp.TftpDir | grub4dos/netboot/fsys_tftp.c:412-485 | `filemax` is the length of the file, and twice that exactly if the announcement came behind a packet of another kind in the first session and not at all in the second; in particular it is right if no size is announced or no packet of another kind is sent; the window is at the start of the file, after at most two openings |
| FrameQueue.IncreasingIsIdentity | grub4dos/netboot/ns8390.c:431-517 | frames handed over in order with none dropped are all the frames that left |
| FrameQueue.NothingLost | grub4dos/netboot/ns8390.c:431-517 | delivery is first in, first out: what was handed over and what is pending is what was accepted |
| FrameQueue.LeaveFollows | grub4dos/netboot/ns8390.c:431-517 | handing over or dropping frames keeps the account of a run |
| FrameQueue.GrownFollows | grub4dos/netboot/ns8390.c:431-517 | so do arrivals |
| Ns8390Spec.PollMeans | grub4dos/netboot/ns8390.c:447-515 | with no overrun and PRX set, a call hands over the oldest frame exactly if that has 60 to 1514 bytes, and otherwise leaves everything |
| Ns8390Spec.PollMeansBusy | grub4dos/netboot/ns8390.c:447-515 | the same while the chip goes on receiving |
| Ns8390Spec.OrdinaryRun | grub4dos/netboot/ns8390.c:431-517 | any frames of 60 to 1514 bytes that fit are handed over, all and in order, by as many calls |
| Ns8390Spec.BadLengthBlocks | grub4dos/netboot/ns8390.c:475-479 | with a frame of any other length at the head of the ring, nothing is ever handed over and it stays there, through every continuation |
| Ns8390Spec.ClearedIsEmptyIff | grub4dos/netboot/ns8390.c:290-334 | clearing an overrun empties the ring exactly if it was empty, or PRX is set and every frame in it has a good length |
| Ns8390Spec.RoomForAll | grub4dos/netboot/ns8390.c:440-446 | no overrun is cleared in a run if the free pages suffice for all that arrives |
| Ns8390Spec.OversizeStaysInRing | grub4dos/netboot/ns8390.c:475-479 | a run with frames of 1515 bytes in which clearing an overrun removes nothing |
| Ns8390Spec.DamageKeepsRingFull | grub4dos/netboot/ns8390.c:447-448 | a run with a damaged frame in which it leaves a good frame |
| Ns8390Spec.RunOneMore | grub4dos/netboot/ns8390.c:431-517 | the runs of the line of frames, event by event from either end |
| Ns8390Ring.HeaderBytes | grub4dos/netboot/ns8390.h:228-232 | the four bytes at the head of a frame, one by one |
| Ns8390Ring.ChainEnds | grub4dos/netboot/ns8390.c:449-455 | the chain of headers ends where CURR is, so the pointers are equal exactly if the ring is empty |
| Ns8390Ring.WrittenAgrees | grub4dos/netboot/ns8390.c:239-259 | a write that fits behind the queued pages does not touch them, wrapped or not |
| Ns8390Ring.ChainSurvives | grub4dos/netboot/ns8390.c:475-501 | so every queued frame is still there |
| Ns8390Ring.ChainAppend | grub4dos/netboot/ns8390.c:510-513 | and the new frame is the last of the chain |
| Ns8390.Nic.constructor | grub4dos/netboot/ns8390.c:239-259 | the set-up of BOUND and CURR is an empty queue |
| Ns8390.Nic.Receive | grub4dos/netboot/ns8390.c:239-259 | whatever its length, a frame is taken exactly if the free pages suffice; otherwise the chip reports an overrun and takes nothing |
| Ns8390.Nic.EthPioRead | grub4dos/netboot/ns8390.c:108-141 | the bytes asked for are read and nothing before them changes, although word moves round an odd count up |
| Ns8390.Nic.PartIs | grub4dos/netboot/ns8390.c:480-501 | each fragment is where it is looked for, and the rounded read stays in bounds |
| Ns8390.Nic.CopyFrame | grub4dos/netboot/ns8390.c:480-501 | both fragments together are the oldest frame, although the chip goes on receiving between them |
| Ns8390.Nic.EmptyIff | grub4dos/netboot/ns8390.c:449-455 | the test of the driver is true exactly if nothing is pending |
| Ns8390.Nic.Oldest | grub4dos/netboot/ns8390.c:466-478 | the header at the read pointer is that of the oldest frame and its bytes follow in ring order |
| Ns8390.Nic.Advance | grub4dos/netboot/ns8390.c:512-515 | the new BOUND makes the next frame the oldest |
| Ns8390.Nic.TakeOldest | grub4dos/netboot/ns8390.c:466-517 | the oldest frame is handed over exactly if its length is good; otherwise it stays, and so does BOUND |
| Ns8390.Nic.PollRing | grub4dos/netboot/ns8390.c:447-517 | what a call does in terms of what the chip had received when the status, CURR and BOUND were accessed |
| Ns8390.Nic.ReadHeader | grub4dos/netboot/ns8390.c:466-476 | what the driver takes from the header |
| Ns8390.Nic.Poll | grub4dos/netboot/ns8390.c:431-517 | a poll is one step of the line of frames, byte for byte; without anything arriving it returns 1 exactly if PRX is set and the oldest frame has 60 to 1514 bytes; with an overrun pending it drains instead |
| Ns8390.Nic.DrainRing | grub4dos/netboot/ns8390.c:324-328 | polling until nothing comes drops the frames before the first of bad length, if PRX is set |
| Ns8390.Nic.RxOverrun | grub4dos/netboot/ns8390.c:290-334 | the mutual recursion ends, flag and loopback are off afterwards, and the ring is empty exactly if it was before, or PRX was set and every frame had a good length |
| Ns8390.Nic.Drive | grub4dos/netboot/ns8390.c:290-517 | for every interleaving, also within a call: the frames handed over, what is left, and whether an overrun is cleared are exactly those of the line of frames; and unless one is, what was pending and arrived is what was handed over and is pending, in order |
| Rtl8139Ring.OffsetSurvivesWrap | grub4dos/netboot/rtl8139.c:407 | the offset into the ring is right also after `cur_rx` has wrapped at 2^32 |
| Rtl8139Ring.CurRxFollows | grub4dos/netboot/rtl8139.c:440 | the rounded 32-bit sum is the position of the next frame, and stays 4-aligned |
| Rtl8139Ring.UnreadIsExact | grub4dos/netboot/rtl8139.c:441 | from the offset 16 behind, in 16 bits, the chip computes exactly the unread bytes |
| Rtl8139Ring.NextCurRxIs | grub4dos/netboot/rtl8139.c:440 | the next position is the first multiple of four behind status word, frame and checksum |
| Rtl8139Ring.PointersMean | grub4dos/netboot/rtl8139.c:440-441 | the two pointer formulas with their numbers |
| Rtl8139Ring.HeaderBytes | grub4dos/netboot/rtl8139.c:408-410 | the four bytes of the status word, one by one |
| Rtl8139Spec.GoodIffFine | grub4dos/netboot/rtl8139.c:412-414 | the driver's mask accepts a status exactly if none of its five error bits is set, bit by bit |
| Rtl8139Spec.OrdinaryRun | grub4dos/netboot/rtl8139.c:389-447 | good frames that fit are handed over, all and in order, by as many calls |
| Rtl8139Spec.HarmlessRun | grub4dos/netboot/rtl8139.c:412-418 | only a bad frame or a failed transmission makes the driver reset the chip |
| Rtl8139Ring.Consecutive | grub4dos/netboot/rtl8139.c:407-410 | the four bytes of a status word never straddle the end of the ring |
| Rtl8139Ring.WrittenOutside | grub4dos/netboot/rtl8139.c:419-434 | a write changes nothing but its own positions, modulo the ring |
| Rtl8139Ring.ChainSurvives | grub4dos/netboot/rtl8139.c:419-434 | queued frames survive the writing of another that fits |
| Rtl8139.Nic.Reset | grub4dos/netboot/rtl8139.c:285-332 | a reset drops what is pending and starts an empty ring |
| Rtl8139.Nic.FrameArrives | grub4dos/netboot/rtl8139.c:441 | the chip refines the arrival of a frame exactly if the unread bytes and its own fit |
| Rtl8139.Nic.PartIs | grub4dos/netboot/rtl8139.c:419-434 | each part of the frame is where it is looked for |
| Rtl8139.Nic.OffsetIs | grub4dos/netboot/rtl8139.c:421-422 | the part before the end of the ring is never of negative length |
| Rtl8139.Nic.CopyFrame | grub4dos/netboot/rtl8139.c:419-434 | the copy in one or two parts is the oldest frame, although the chip goes on receiving between them |
| Rtl8139.Nic.Oldest | grub4dos/netboot/rtl8139.c:407-410 | status, size and bytes at `cur_rx` are those of the oldest frame |
| Rtl8139.Nic.Advance | grub4dos/netboot/rtl8139.c:440-441 | the new pointers make the next frame the oldest |
| Rtl8139.Nic.Poll | grub4dos/netboot/rtl8139.c:389-447 | a poll returns 1 exactly if the ring is not empty, none of the error bits of the oldest frame is set and its length with the checksum is 60 to 1518, and then hands over that frame; otherwise it resets |
| Rtl8139.Nic.Drive | grub4dos/netboot/rtl8139.c:285-447 | for every interleaving, also within a call: the frames handed over, what is left, and whether the chip is reset are exactly those of the line of frames; first in, first out, nothing lost unless the chip was reset |
| Depca.SamePeriod | grub4dos/netboot/depca.c:669 | where a part of the signature repeats inside a longer part, both go on with the same byte |
| Depca.FallbackIsEnough | grub4dos/netboot/depca.c:682-685 | so falling back to 0 or 1 still computes the longest match |
| Depca.SeenIffThere | grub4dos/netboot/depca.c:680-686 | an occurrence in the reads is one in the cyclic PROM |
| Depca.ThereIffSeen | grub4dos/netboot/depca.c:680-686 | the signature is in the PROM exactly if 39 reads from any start show it |
| Depca.Prom.Search | grub4dos/netboot/depca.c:680-688 | success exactly if the signature occurs among the reads, stopping right behind its first occurrence |
| Depca.Prom.FindAddress | grub4dos/netboot/depca.c:650-688 | from any counter the search finds the signature exactly if the PROM has it and leaves the counter at the station address |
| Numerals.ValueOfDecimal | grub4dos/netboot/misc.c:136-163 | the numeral printed denotes the number and has no superfluous zero |
| Numerals.DecimalOfValue | grub4dos/netboot/misc.c:248-266 | printing the number a canonical text denotes gives the text |
| Numerals.ReverseBackwards | grub4dos/docs/kernel.c:192-213 | the digits produced last first and turned around are the numeral, in every radix |
| Printers.PutDecimal | grub4dos/netboot/misc.c:136-163 | the in-place loops leave exactly the text of `%d` for every `int` and nothing before it changes |
| Printers.ShownFits | grub4dos/netboot/misc.c:95 | the text fits into the buffer of the item |
| Printers.DecimalIsRightIff | grub4dos/netboot/misc.c:141-152 | `%d` is the numeral exactly if the argument is not the least integer |
| Printers.LeastIntegerBackwards | grub4dos/netboot/misc.c:141-152 | what the loop writes for the least integer |
| Printers.PutUnsigned | grub4dos/docs/kernel.c:192-213 | the loops of `itoa` leave the terminated numeral |
| Printers.ItoA | grub4dos/docs/kernel.c:173-214 | right for every `int`, the least included; hexadecimal modulo 2^32 |
| Printers.GetDec | grub4dos/netboot/misc.c:248-266 | -1 and no movement without a digit, otherwise the value of all the digits in a wrapping `int` |
| Printers.GetDecReadsDecimal | grub4dos/netboot/misc.c:248-266 | every non-negative `%d` text is read back |
| Printers.InetAton | grub4dos/netboot/misc.c:223-246 | the loop against the recursive meaning of a dotted quad |
| Printers.AtonOfFields | grub4dos/netboot/misc.c:223-246 | four fields below 256 are accepted and give that address; what follows is ignored |
| Printers.AcceptedIff | grub4dos/netboot/misc.c:223-246 | four dotted texts of digits are accepted exactly if none is empty or above 255, and give that address, whether or not they are canonical |
| Printers.NoDotRefused | grub4dos/netboot/misc.c:235-242 | a field without a dot behind it is refused |
| Printers.PutQuad | grub4dos/netboot/misc.c:165-183 | `%@` prints the four bytes in memory order with dots between them, within 15 characters |
| Printers.AddressRoundTrip | grub4dos/netboot/misc.c:165-246 | every 32-bit address is read back from its `%@` text |
| Printers.TextRoundTrip | grub4dos/netboot/misc.c:165-246 | every canonical dotted quad is accepted and printed back unchanged |
| Hexadecimal.HexDenotes | grub4dos/netboot/misc.c:120-135 | `%x`, `%hx`, `%hhx` texts denote the argument modulo 2^32, 2^16, 2^8, negative ones included, in one case of letters |
| Hexadecimal.TextOfValue | grub4dos/netboot/misc.c:120-135 | every text of digits in one case is the one printed for its value |
| Hexadecimal.NumeralDenotes | grub4dos/docs/kernel.c:192-213 | `itoa` in hexadecimal: small letters, the value, and no superfluous zeros |
| Hexadecimal.PrefixIs | grub4dos/netboot/misc.c:126-130 | what `#` puts in front |
| Hexadecimal.PutHex | grub4dos/netboot/misc.c:101-135 | prefix and digits by shifts from the top are that text |
| Hexadecimal.PutMac | grub4dos/netboot/misc.c:184-194 | six times two digits with colons between them, 17 characters |
| Hexadecimal.MacReadsBack | grub4dos/netboot/misc.c:184-194 | every byte of a hardware address is read back from its place |
| DeviceMap.ReadLine | grub4dos/lib/device.c:521-602 | the pointer walk over a line, with every error, against its meaning as a text |
| DeviceMap.ReadDeviceMap | grub4dos/lib/device.c:494-610 | the map filled in place and the verdict, against the recursive reading of the file |
| DeviceMap.InitDeviceMap | grub4dos/lib/device.c:618-811 | file and map written: every floppy in the file, readable ones in the map, disks numbered from 0x80 in probe order without gaps |
| DeviceMap.WriteDisks | grub4dos/lib/device.c:713-802 | the disk loops with their shared counter |
| DeviceMap.StrToULOfDecimal | grub4dos/lib/device.c:558 | the number in a line is read back |
| DeviceMap.ReadBackIff | grub4dos/lib/device.c:516-519 | a written line gives its entry exactly if it is at most 1024 characters with the newline; longer names are cut off |
| DeviceMap.ReadOneLine | grub4dos/lib/device.c:519-607 | reading a file goes on behind a written line with just its entry added |
| DeviceMap.LinesRoundTrip | grub4dos/lib/device.c:519-609 | all lines of one kind of drive are read back into their places |
| DeviceMap.MapFileRoundTrip | grub4dos/lib/device.c:519-804 | the file written is accepted and gives the map in memory, with unreadable floppies added |
| DeviceMapLines.RemarkSkipped | grub4dos/lib/device.c:529-531 | a line that begins with '#' does not matter, whatever follows it |
| DeviceMapLines.BlankSkipped | grub4dos/lib/device.c:533-540 | nor does a line of white space |
| DeviceMapLines.RemarksDoNotMatter | grub4dos/lib/device.c:519-609 | a file reads as the same file without such lines, wherever they stand, accepted or not |
| DeviceMapLines.RemarkedFileRoundTrip | grub4dos/lib/device.c:519-804 | so the file that the probe wrote, with remarks and blank lines added, still gives its map |
| DeviceMapLines.NoParenthesisRefused | grub4dos/lib/device.c:541-546 | for every text: a line that begins with anything else is refused |
| DeviceMapLines.BadDriveRefused | grub4dos/lib/device.c:548-553 | a drive that is neither "fd" nor "hd" |
| DeviceMapLines.HighDrives | grub4dos/lib/device.c:558-570 | a drive beyond 127 is ignored; a number negative as an `int` is refused |
| DeviceMapLines.NoCloseRefused | grub4dos/lib/device.c:575-579 | no closing parenthesis |
| DeviceMapLines.NoNameRefused | grub4dos/lib/device.c:586-590 | no name |
| DeviceMapLines.SecondEntryRefused | grub4dos/lib/device.c:598-603 | a second entry for a drive |
| DeviceMapLines.NamedDriveRead | grub4dos/lib/device.c:592-606 | otherwise the word is the name and what follows it is ignored |
| DeviceMapLines.NumberRead | grub4dos/lib/device.c:558 | white space, sign and digits as `strtoul` takes them |
| DeviceMapLines.SpacesAre | grub4dos/lib/device.c:535-537 | what counts as white space |
| DeviceMapLines.NoNumberIsZero | grub4dos/lib/device.c:558 | "(hd)" is the first hard disk |
| DeviceMapLines.DriveLineIs | grub4dos/lib/device.c:667-668 | what the probe writes, letter by letter |
| Chs.Decompose | grub4dos/stage2/bios.c:161-172 | the address is within the geometry and denotes the sector; rejected exactly if the sector is beyond C*H*S |
| Chs.AddressesAreUnique | grub4dos/stage2/bios.c:166-170 | an address within the geometry belongs to one sector only |
| Chs.EveryAddressIsUsed | grub4dos/stage2/bios.c:166-172 | every address within the geometry is that of a sector on the disk |

## Left out

- Next: the `-W text` spelling (option strings with `W;`), `getopt_long_only`, error messages, the environment flags of the C library and callers that change `optind` between calls are not modelled; characters are non-negative codes. Calls after the end are the subject of `NextAfterEnd`.
- ShortOptionStep: does not model the `W;` branch either.
- AwaitReply: the network is a finite schedule of events, so a network that delivers for ever is not covered; reply times, the CONGESTED branch and retransmission intervals are left out; ports are never reused, although `iport` has 16 bits.
- TakeOptions: in the runs of the protocol an OACK carries a list of options; `OackText` connects that with the text. Behind the end of the packet buffer the text reads as NUL. Servers acknowledge honestly: a block size of at most 1432 and the true file size.
- TftpRead: for a position out of reach it is required that the bytes looked for are within the buffer; behind it the code reads other memory, which is not part of this model, and neither is the state that such a read leaves. File offsets do not overflow 32 bits. Whether the link accepts a request is arbitrary (`down`).
- TftpDir: building the request text is left out, and so are `tftp_mount` and `tftp_close`.
- Receive: the chips (also in `FrameArrives`) are modelled by what they write into the ring and where they move their pointers; port I/O, DMA, transmission, timers and the other interrupt bits are not. Damaged frames only change the receive status.
- Poll: for rtl8139, the acknowledgment of interrupts; for ns8390, the register variants of the WD and 3C503 cards.
- FindAddress: the counter set-up before the search and the checksum behind it.
- PutDecimal: negating the least integer wraps around, as on the machine the code is for; `%s`, `%c` and the final copy of an item are left out.
- InitDeviceMap: the devfs branch, files that cannot be opened, and probes that find more than 128 disks. Names and readability of devices are inputs; `strtoul` has 32 bits; warnings and error texts are left out.
- Decompose: negative sector numbers and the calls into the BIOS.
- The other network drivers, card probing, the console code and the installer scripts: register programming or text without a property of its own.
