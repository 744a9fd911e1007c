# Linux driver collection: verified models

Dafny models of the three parts of this driver collection that compute something,
with proofs of what they are meant to guarantee.

**Packets.** Two programs lay Ethernet, IPv4 and TCP or ICMPv6 headers into a byte
buffer, zero the checksum field and fill it (`netSpi.c`, `net_usp.c`); a network driver
reads received frames at fixed offsets and rewrites transmitted ones in place
(`net_eth.c`). `OnesComplement.dfy` and `InternetChecksum.dfy` hold the arithmetic:
folding, end-around carry, byte-order independence, zero-then-fill, detection of a
changed word, incremental update. `Headers.dfy` holds the layouts and in-place writers,
`NetSpi.dfy`, `NetUsp.dfy` and `NetEth.dfy` the three programs, `Ownership.dfy` the
ledger of kernel memory they allocate, free and hand off.

**The SYSTIM clock** (`e1000.h`). `Systim.dfy` models the wrapping 64-bit register, a
reader that adds up wrapped differences, and whole runs of ticks and reads.

**Character-device registration.** Seven drivers acquire a region of device numbers, a
class, a node, a cdev and so on, and must give back what they have when a step fails.
`Registry.dfy` is the shared kernel state, `Scripts.dfy` the theory of acquire and undo
scripts of any length, `Drivers.dfy` the seven drivers as imperative code proved against
their scripts, `Interleaving.dfy` the machine in which any number of modules take their
kernel calls in any order, and `Fleet.dfy` the seven drivers inside that machine.
`CharIo.dfy` has the ioctl value and the SPI read.

Run `dafny verify dfyconfig.toml` to check everything.

## What the proofs found

- The TCP checksum in `netSpi.c` is computed with the length of the whole frame (58), not
  of the segment (24). A segment is accepted if and only if the length passed is its own
  (`SegmentVerifiesIffLengthIsItsOwn`), so no segment the driver sends is accepted
  (`SentSegmentIsRejected`). `tcp_v4_check` is not part of the repository in the
  form in which it is called; its length argument is taken to go into the pseudo-header,
  as section 3.1 of RFC 9293 defines that header.
- The transmit path decrements the TTL and leaves the checksum alone: no frame that
  verified before still does (`RewriteBreaksChecksum`). The update of section 3 of
  RFC 1624 repairs exactly the headers that are not all zero (`UpdateRepairs`).
- Two failure branches of the ioctl driver forget to delete the cdev. A failed load leaves
  something behind exactly when the kernel grants the region and the cdev and then refuses
  the class or the node (`EtxFailure`). A concrete run then puts that cdev into another
  module's region (`LeakedCdevMeetsStranger`). All other failure branches of all seven
  drivers are complete, and over every run, these failures included, such cdevs are all
  that can be left over (`FleetIsSafe`).
- Any set of the drivers can be live at once, if and only if no two of them are built for
  the same fixed major number and no region of anybody else has one (`FleetCoexists`).
- The comment in `e1000.h` says the increment is scaled as far as 24 bits allow. That holds
  for every clock except the 24 MHz one (`IncrementFits`). The 38.4 MHz increment is
  rounded, so that clock runs at 624/625 of true time (`ConversionIsExact`).
- `tot_len` is stored without `htons` in both builders. A receiver reads the right total
  length if and only if the builder runs on a big-endian machine or the two bytes of the
  length are equal (`TotalLengthAsReceived`): from a little-endian machine the 44 of
  `netSpi.c` arrives as 11264 (`SentLengthIsMisread`) and the 92 of `net_usp.c` as 23552
  (`PacketLengthAsReceived`). The header checksum is right all the same.
- The reserved TCP nibble, the urgent pointer and everything behind the ICMPv6 code are
  never written; the models keep what was there.
- `my_netdev_rx` in `netSpi.c` never touches the buffer it is called with.

## Model

| member | source | states |
|---|---|---|
| OnesComplement.Fold | netSpi.c:88 | Carry folding terminates on every accumulator value and yields the one's-complement residue (0 for 0, otherwise 1 to 0xFFFF) |
| OnesComplement.EndAroundAddIsResidue | netSpi.c:88 | One end-around addition of two residues is the residue of the plain sum |
| OnesComplement.SwapCommutes | netSpi.c:87-88 | Byte swap commutes with end-around-carry addition, for all words including 0 and 0xFFFF |
| InternetChecksum.WordSumIsResidueSum | net_usp.c:60-61 | Summing wide and folding once equals adding word by word with end-around carry |
| InternetChecksum.WordSumByPosition | net_usp.c:60-61 | The word sum, by position alone: even bytes count 256 fold and odd ones once in network order, the reverse on a little-endian machine, odd lengths included |
| InternetChecksum.WorkedExample | net_usp.c:60-61 | The eight bytes of section 3 of RFC 1071 sum to 0xDDF2 and have checksum 0x220D |
| InternetChecksum.ByteOrderIndependence | net_usp.c:60-61 | The sum over host-order words is the byte swap of the sum over network-order words, for buffers of any length |
| InternetChecksum.VerdictIsOrderFree | net_usp.c:60-61 | A header is accepted in one byte order if and only if it is in the other |
| InternetChecksum.ChecksumBytesOrderFree | netSpi.c:87-88 | Machines of either byte order store the same two checksum bytes |
| InternetChecksum.FillIsTheOnlyFill | netSpi.c:87-88 | In a zeroed field, exactly the computed checksum makes the header verify, or 0xFFFF when the computed one is 0 |
| InternetChecksum.FillVerifies | netSpi.c:87-88 | Zero-then-fill by a machine of one byte order verifies on a machine of any |
| InternetChecksum.SingleWordChange | net_eth.c:80 | After one aligned word of a verified header changed, it verifies iff the change is a multiple of 0xFFFF and something is non-zero |
| InternetChecksum.UpdateIsRecomputation | net_eth.c:80 | RFC 1624 equation 3 is congruent to recomputation, and equal to it exactly when its own sum is zero (HC = m = 0xFFFF, m' = 0) iff the updated header is all zero |
| InternetChecksum.Accumulate | netSpi.c:88 | The 32-bit word loop, odd last byte included, adds the buffer's word sum modulo 2^32 |
| InternetChecksum.InChecksum | netSpi.c:88 | The loop plus folding is the checksum for every buffer of up to 65537 words |
| InternetChecksum.AccumulatorBoundIsTight | netSpi.c:88 | One word more and a 32-bit accumulator gives a wrong checksum |
| Headers.Ipv4HeaderVerifies | netSpi.c:73-88 | For every length, protocol and address pair the checksum of the built header is accepted in either byte order and its fields read back at their offsets, the total length in the writer's own byte order |
| Headers.Ipv4Bytes | netSpi.c:73-87 | The built header in literal bytes, all but the checksum |
| Headers.Ipv4ChecksumInNumbers | netSpi.c:87-88 | The checksum a receiver loads is that of the sum of the other nine words, with the total length swapped on a little-endian machine |
| Headers.TotalLengthAsReceived | netSpi.c:77 | Loaded in network order the total length is byte-swapped on little-endian writers; it is the right one iff the writer is big-endian or its two bytes are equal |
| Headers.TcpFields | netSpi.c:91-106 | Ports, zero sequence and acknowledgement numbers, header length, flags and window read back at their offsets; unassigned bits are what they were |
| Headers.TcpBytes | netSpi.c:91-106 | The TCP header in literal bytes, and the sum of its words |
| Headers.SegmentVerifiesIffLengthIsItsOwn | netSpi.c:112-113 | A filled segment with any payload, odd lengths included, is accepted iff the length argument is the segment's own (0 and 0xFFFF counting as one) |
| Headers.SegmentVerifiesInNumbers | netSpi.c:112-113 | A receiver accepts a segment iff the address words plus 6 plus its length plus its words are a multiple of 65535 |
| Headers.TcpChecksumInNumbers | netSpi.c:112-113 | The computed checksum is the complement of the residue of those words with the length passed, swapped on a little-endian machine |
| Headers.WriteEthernetHeader | net_usp.c:43-46 | The 14 bytes become destination, source and 08 00, and no other byte changes |
| Headers.WriteIpv4Header | net_usp.c:49-61 | The 20 bytes become the filled header whatever was there, and no other byte changes |
| Headers.WriteTcpHeader | netSpi.c:91-106 | The 20 bytes become the header, keeping the reserved nibble and urgent pointer, and no other byte changes |
| Headers.TcpV4Check | netSpi.c:113 | Summing pseudo-header and segment in two passes gives the checksum of the address words plus 6 plus the length passed plus the segment's words |
| NetSpi.SkBuff.Put | netSpi.c:67-109 | Each slice starts where the last ended and stays inside the buffer |
| NetSpi.BuildHeaders | netSpi.c:66-88 | Ethernet and IPv4 slices hold their headers and the rest of the buffer is unchanged |
| NetSpi.BuildSegment | netSpi.c:90-113 | TCP and payload slices hold the filled segment; the earlier slices and the tail are unchanged |
| NetSpi.BuildFrame | netSpi.c:66-113 | 58 of 100 bytes become the frame for any previous content, given in literal bytes but for the two checksums; the other 42 stay |
| NetSpi.FrameBytes | netSpi.c:66-110 | The specified frame in literal bytes: MACs, EtherType 08 00, IPv4 and TCP fields, payload |
| NetSpi.FrameChecksums | netSpi.c:87-113 | Both checksums of the sent frame as a receiver loads them, from the literal words around them and the length 58 |
| NetSpi.ChecksumExample | netSpi.c:112-113 | From 10.0.0.1, with temperature 0 and clean memory, the stored TCP checksum is 70 BC in either byte order |
| NetSpi.FrameVerdicts | netSpi.c:87-113 | IPv4 header checksum always accepted, TCP segment accepted iff the length passed is the segment's |
| NetSpi.FrameLengthAsReceived | netSpi.c:77 | A receiver reads the frame's total length as the number of bytes behind the Ethernet header iff the machine is big-endian or the two length bytes are equal |
| NetSpi.SentLengthIsMisread | netSpi.c:77 | 44 bytes follow the Ethernet header; from a little-endian machine a receiver reads 11264 |
| NetSpi.SentSegmentIsRejected | netSpi.c:112-113 | With the length the code passes no receiver accepts the segment, for any temperature, address and leftover memory |
| NetSpi.MyNetdevRx | netSpi.c:42-121 | Success iff there is data and memory; with data the transfer is freed once, with memory too one new buffer, carrying the first four bytes of the transfer, is handed off once; nothing else is allocated or released |
| NetSpi.RxRun | netSpi.c:42-121 | Over every run and failure pattern the buffers allocated are one transfer per reception with data, each freed exactly once and never sent, and one frame per delivered reception, each handed off exactly once and never freed; no others, and none stays live |
| Ownership.Ledger.Free | net_eth.c:51-55 | Only live memory is freed, and everything ever allocated stays live or released exactly once |
| Ownership.Ledger.HandOff | netSpi.c:116 | Handing a buffer off releases it exactly once and it can no longer be freed |
| NetUsp.BuildPacket | net_usp.c:39-66 | The allocated memory becomes the packet, given in literal bytes but for the checksum; bytes behind the ICMPv6 code keep their content |
| NetUsp.BuildRequest | net_usp.c:39-66 | With the program's own addresses the packet goes from 192.168.1.10 to 192.168.0.20 |
| NetUsp.PacketBytes | net_usp.c:43-66 | The specified packet in literal bytes |
| NetUsp.PacketChecksum | net_usp.c:60-61 | Its header checksum as a receiver loads it, from the literal words around it |
| NetUsp.PacketHeaderVerifies | net_usp.c:49-61 | The checksum of the packet's IPv4 header is accepted in either byte order |
| NetUsp.PacketLengthAsReceived | net_usp.c:53 | 92 bytes follow the Ethernet header; from a little-endian machine a receiver reads 23552 |
| NetEth.MyNetdevRx | net_eth.c:13-58 | Success iff at least 34 bytes and memory for the copy; then MACs, IPs and protocol come from their offsets and an echo reply is reported iff protocol is 58 and the type byte is 129; received buffer and copy are each freed once |
| NetEth.RxRun | net_eth.c:13-58 | Over every sequence of frames and allocation failures every buffer and copy is freed exactly once |
| NetEth.RoundTrip | net_eth.c:34-49 | Reading the sender's packet recovers both MACs, both IPs and the protocol, finds an ICMPv6 echo request and reports no echo reply |
| NetEth.ReplyIsReported | net_eth.c:43-48 | The same packet with type 129 is reported as an echo reply |
| NetEth.SpiRoundTrip | netSpi.c:66-113 | Reading the SPI driver's frame recovers addresses, ports, window and temperature |
| NetEth.MyNetdevTx | net_eth.c:60-80 | Negative headroom frees the buffer and keeps the frame; otherwise the first six bytes become 00:0C:22:44:AA:BB, the TTL drops by one (0 becomes 255) and every other byte stays |
| NetEth.RewriteBreaksChecksum | net_eth.c:72-80 | No header that verified still verifies after the rewrite, TTL wrap-around included |
| NetEth.UpdateRepairs | net_eth.c:79-80 | The incremental update equals recomputation, and verifies, iff the header is not all zero besides its checksum |
| NetEth.UpdateRepairsIpv4 | net_eth.c:79-80 | For version-4 headers the incrementally updated header always verifies |
| Systim.IncrementFits | e1000.h:419-443 | All increments fit 24 bits; the shift is the largest that fits iff the clock is not the 24 MHz one |
| Systim.Evaluated | e1000.h:424-440 | Increment, period and total shift of each clock as numbers |
| Systim.ConversionIsExact | e1000.h:424-443 | Shifting down gives the floor of true nanoseconds for three clocks and 624/625 of true time for 38.4 MHz |
| Systim.InNumbers | e1000.h:424-443 | n increments read as n*125/4, n*40, n*125 and n*26 nanoseconds, and stand for n*125/4, n*40, n*125 and n*625/24 |
| Systim.OverflowPeriods | e1000.h:445-453 | The register laps itself after 2^45 ns at 96 MHz and 2^46 ns at 25 MHz, in hours as stated |
| Systim.Register.Tick | e1000.h:416-420 | Every period-th tick adds the increment modulo 2^64 and the others nothing; the raw register is the unbounded count modulo 2^64 |
| Systim.TimeCounter.Read | e1000.h:382-383 | A read adds the difference of two raw values modulo 2^64, which is the true advance modulo 2^64 |
| Systim.Run | e1000.h:445-454 | Register and reader through a whole run: ticks are counted, the specified sum is accumulated, and after a last read with no gap above four hours it is the increments between the two tick numbers |
| Systim.AccumulatesTruthIffNeverLapped | e1000.h:445-447 | Over every run the accumulated count is at most the true one, and equal iff no gap between reads reached 2^64 |
| Systim.OverflowPeriodIsSafe | e1000.h:454 | Reads at most four hours apart never let any of the four clocks lap |
| Systim.FourHours | e1000.h:454 | Four hours are 1382400000000, 360000000000, 345600000000 and 552960000000 ticks |
| Systim.FourHourReadsKeepTime | e1000.h:416-454 | With no gap above those numbers of ticks, from any start, the count is the true one and reads as stated, true time on the exact clocks and 624/625 of it on the 38.4 MHz clock |
| Registry.RegionGranted | MyCanDriver.c:50-51 | A number is granted iff the kernel agrees and it lies in no range (first minor, count) of its major; then exactly one region is new and it is the asker's; taken is -16; disjointness is kept |
| Registry.DisjointRanges | MyCanDriver.c:50-51 | Disjoint regions, in numbers: under one major each range lies wholly before or behind any other |
| Registry.Released | MyCanDriver.c:68-72 | Unregistering a number removes the one-number region there whoever owns it; every other release removes exactly one entry of the caller's |
| Scripts.InitOutcome | Ioctl_kernel_device_driver.c:129-166 | For scripts of any length a load leaves exactly what was granted minus what its branch releases; nothing iff the branch covers it |
| Scripts.FailedInitIsAtomic | MyWi-fiDriver.c:34-70 | A failed load with a complete failure branch leaves the registry as it was |
| Scripts.ExitUndoesInit | I2c_driver_test.c:77-118 | Load then unload is the identity, also when an unchecked step failed |
| Scripts.LoadsWhenFree | MyWi-fiDriver.c:34-74 | If the kernel refuses nothing of its own accord and the wanted number is free, a load of any script succeeds and adds no region but its own |
| Drivers.DriverShape | Ioctl_kernel_device_driver.c:129-178 | All seven exits, and all failure branches outside etx, are the exact reverse of what was acquired |
| Drivers.EtxShape | Ioctl_kernel_device_driver.c:142-165 | In etx exactly the first two failure branches are complete |
| Drivers.EtxFailure | Ioctl_kernel_device_driver.c:132-165 | A load of etx fails and changes the registry iff region and cdev are granted and class or node is refused; what stays is exactly one cdev whose region is free again; every failure returns -1 |
| Drivers.EtxEnds | Ioctl_kernel_device_driver.c:132-165 | A load of etx succeeds iff all four calls are granted and the number is free, and then adds exactly its four entries |
| Drivers.Esp32Ends | MyWi-fiDriver.c:37-74 | By the kernel's answers alone: the error of the first refused call, -16 for a taken number, else success with exactly the four entries |
| Drivers.I2cEnds | I2c_driver_test.c:81-108 | By the kernel's answers alone: the error of the first of the three checked calls refused, -16 for a taken number, else success, with or without the node |
| Drivers.SpiEnds | CharSpiKS.c:46-77 | By the kernel's answers alone: -95 without a device, -12 without a cdev object, the kernel's error for the region or cdev, -16 for a taken number, else exactly three entries |
| Drivers.FixedEnds | MyCanDriver.c:50-66 | By the kernel's answers alone: the error of the refused call, -16 for a taken number, else region and cdev at the fixed number |
| Drivers.LoadThenUnload | MyWi-fiDriver.c:34-90 | Loading any of the seven and unloading it restores the registry, other modules' entries included |
| Drivers.EtxDriver.Load | Ioctl_kernel_device_driver.c:129-166 | Follows its script; 0 with exactly four new entries iff all calls are granted and the number is free, else -1, with the registry as before or, if region and cdev were granted, that cdev left over |
| Drivers.EtxDriver.Unload | Ioctl_kernel_device_driver.c:171-178 | Exactly the module's own entries and the one-number region at its number are gone; if the registry is what a successful load left, it is the one that load began with |
| Drivers.Esp32Driver.Load | MyWi-fiDriver.c:34-74 | Follows its script; the return code for every pattern of refusals, exactly four new entries on success, and an unchanged registry on error |
| Drivers.Esp32Driver.Unload | MyWi-fiDriver.c:76-90 | Exactly the module's own entries and the one-number region at its number are gone; if the registry is what a successful load left, it is the one that load began with |
| Drivers.I2cDriver.Load | I2c_driver_test.c:77-109 | Follows its script; the return code for every pattern of refusals, staying loaded without a node, exactly the stated entries on success, and an unchanged registry on error |
| Drivers.I2cDriver.Unload | I2c_driver_test.c:111-118 | Exactly the module's own entries and the one-number region at its number are gone; if the registry is what a successful load left, it is the one that load began with |
| Drivers.SpiDriver.Load | CharSpiKS.c:43-77 | Follows its script; the return code for every pattern of refusals, -95 and -12 among them, exactly three new entries on success, and an unchanged registry on error |
| Drivers.SpiDriver.Unload | CharSpiKS.c:79-82 | Exactly the module's own entries and the one-number region at its number are gone; if the registry is what a successful load left, it is the one that load began with |
| Drivers.FixedMajorDriver.Load | MyCanDriver.c:48-66 | Follows its script for any major; the return code for every pattern of refusals, region and cdev at the fixed number on success, and an unchanged registry on error |
| Drivers.FixedMajorDriver.Unload | Wi-fi_device_driver.c:69-73 | Exactly the module's own entries and the one-number region at its number are gone; if the registry is what a successful load left, it is the one that load began with |
| Interleaving.NextKeeps | CharSpiKS.c:43-82 | Any one kernel call of any module keeps the invariant of the whole system; a module whose incomplete failure branch begins is forgetful from then on |
| Interleaving.EveryRunKeeps | MyCanDriver.c:48-72 | The invariant holds after every interleaved run of any number of modules, forgetful failures included |
| Interleaving.HeldInOrder | MyWi-fiDriver.c:37-87 | At every instant a module that never forgot anything and holds a later acquisition holds every earlier checked one |
| Interleaving.CdevInOwnRegion | MyBlutooth_Device_Driver.c:52-59 | Every cdev of a module that never forgot anything lies in a region that module holds |
| Interleaving.QuiescentIsInitial | Ioctl_kernel_device_driver.c:171-178 | With all modules idle the registry is the initial one plus only entries of forgetful modules, of kinds their failure branches omit |
| Interleaving.LoadAlone | MyWi-fiDriver.c:34-74 | An uninterrupted load is one schedule of the interleaved machine, forgetful iff it fails at an incomplete branch |
| Interleaving.UnloadAlone | MyWi-fiDriver.c:76-90 | An uninterrupted unload is one schedule of the interleaved machine, and not a forgetful one |
| Interleaving.AllLoad | MyCanDriver.c:48-66 | Any modules whose numbers are free and pairwise different can all be live at once, after a run in which nobody forgets anything |
| Fleet.OnlyEtxForgets | Ioctl_kernel_device_driver.c:148-157 | Among the seven, the only forgetful steps are etx's last two when refused |
| Fleet.FleetIsSafe | MyBlutooth_Device_Driver.c:50-74 | Over every interleaving no regions overlap, entries of others are exactly those of the start, only etx modules forget, all others' cdevs lie in own regions, and quiescence restores the start except for cdevs of forgetful etx modules |
| Fleet.NumberHeldOnce | MyCanDriver.c:50-51 | At every instant of every run no (major, minor) lies in the ranges of two different regions |
| Fleet.EtxOrder | Ioctl_kernel_device_driver.c:131-178 | At every instant of every run, unless that etx forgot something, its node implies its class and cdev, and its cdev the region |
| Fleet.EtxClassOrder | Ioctl_kernel_device_driver.c:131-178 | Even for an etx that forgot cdevs, at every instant its node implies its class and its class a region |
| Fleet.Esp32Order | MyWi-fiDriver.c:37-87 | At every instant of every run an esp32 cdev implies its node, class and region |
| Fleet.FixedMajorIsExclusive | Wi-fi_device_driver.c:8-51 | In every run a live fixed-major module holds its number and that number lies in no other region's range |
| Fleet.FleetCoexists | Wi-fi_device_driver.c:8-51 | All modules of a fleet can be live at once iff no two insist on one number and no foreign region has one; then without any forgetful failure |
| Fleet.SevenTogether | MyCanDriver.c:48-66 | The seven drivers can all be live together without a forgetful failure, and whenever they are, 250:0, 251:0 and 252:0 are held by CAN, Wi-Fi and Bluetooth |
| Fleet.LeakedCdevMeetsStranger | Ioctl_kernel_device_driver.c:148-165 | A concrete run in which an idle etx's cdev sits in a region of another module |
| CharIo.EtxDevice.Handle | Ioctl_kernel_device_driver.c:85-124 | What each call returns, delivers and does to the value |
| CharIo.EtxDevice.Serve | Ioctl_kernel_device_driver.c:34-124 | Over every run and any handles, a read that goes through delivers the latest value whose write went through, nothing else delivers, and a write returns its length |
| CharIo.LatestIsTheLastStore | Ioctl_kernel_device_driver.c:106-112 | The latest value is that of the last write in the history whose copy went through |
| CharIo.LatestOfNone | Ioctl_kernel_device_driver.c:34 | Without a write whose copy went through it is 0 |
| CharIo.SpiCharRead | CharSpiKS.c:17-36 | The first min(count, 16) bytes are delivered, errors are -14 and deliver none, and the transfer buffer is freed exactly once |

## Left out

- Source address of the SPI frame: the source line is cut off (netSpi.c:82), so the address is a parameter.
- Transmission after the rewrite: the text ends at net_eth.c:85; a buffer that is not dropped stays with its caller.
- Sockets, ioctl plumbing, netlink, SPI, I2C and USB transfers: I/O, reduced to whether they succeed.
- `NetEth.Parse`: the ICMPv6 type of a frame that ends right after its IP header is read by the code without a length check; the model reports such a frame as truncated.
- `Registry.Acquire`: kernel calls fail for any reason at any time; names of classes and nodes, reference counts and the choice of dynamic major numbers are not modelled further.
- The reference `spi_bus_find_device` may take: nothing in CharSpiKS.c releases it, and the lookup is modelled as acquiring nothing.
- `CharIo.EtxDevice.Handle`: a user-space copy that fails is taken to have moved nothing; partial copies are not modelled.
- `Systim.TimeCounter.Read`: the read is one step; the re-read loop constants at e1000.h:455-456 belong to code that is not part of this model.
- The rest of e1000.h: register access, flags and descriptor rings, whose bodies are not part of this model.
- USB, UART and the kernel-space SPI test drivers: single registrations without a failure branch to reverse.
- `Scripts.MayLoad`: the load lemmas begin with a module that holds nothing. A retry of etx after its own leak is a run of the interleaved machine (`Fleet.FleetIsSafe`), which keeps the old cdev entry beside the new one; what the kernel makes of `cdev_init` on a cdev object that is still mapped is not modelled.
- Locking and interrupt context: concurrency is the interleaving of kernel calls.
