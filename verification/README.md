# Tessera kernel: verified models of its protocol, storage and codec cores

Dafny models of the parts of the Tessera kernel repository whose correctness is hardest to see from the code, with
proofs about every input, every run and every reachable state. `dafny verify dfyconfig.toml` checks the whole
project. Every file is one module, grouped by component.

| files | what they model |
|---|---|
| `TcpSpec`, `TcpConnection`, `TcpStream`, `TcpRun`, `TcpNetwork`, `TcpTimer`, `TcpWire` | the TCP connection machine: a class with the in-place four-slot send buffer, the value-level machine it refines, runs against an arbitrary peer, two ends over a lossy network, the retransmission timer, and the wire form |
| `Ext2Error`, `Ext2Bits`, `Ext2Layout`, `Ext2Alloc`, `Ext2Map`, `Ext2Volume`, `Ext2Inode`, `Ext2Steps`, `Ext2Trim`, `Ext2Dir`, `Ext2Names`, `Ext2Scan`, `Ext2Room`, `Ext2Links`, `Ext2Inodes`, `Ext2Conservation`, `Ext2Fs`, `Ext2Fresh`, `Ext2Lost` | the ext2 volume: a class over a device of blocks with the bitmap allocator, block maps, reads, writes, truncation, directories, inodes and link counts, and one invariant every operation takes and gives back; two concrete volumes |
| `Field`, `FieldBytes`, `FieldPowers`, `PrimeField`, `SquareRoots`, `EdwardsPoint`, `EdwardsComplete` | arithmetic modulo 2^255-19 on five limbs, its addition chains, and point encoding |
| `IslLayout`, `IslCodec`, `IslRoundTrip`, `IslEmit`, `IslIo`, `IslTable`, `IslEvolution`, `IslUnion`, `IslRecords` | the interface schema compiler: struct layout, what it emits, the cursors the emitted code runs over, tables across schema versions and unions |
| `Fdt`, `FdtWalk` | the flattened device tree walk against recursion on a tree |
| `Sha` | streaming SHA-256 and SHA-512 against pad then fold |
| `Checksum`, `Buffers`, `Udp`, `IpHeaders`, `Frames` | one's-complement checksums and the packet writers and parsers |
| `Nvme` | the NVMe completion ring with its phase bit |
| `Common`, `Bits`, `Endian` | shared value types, bits and little-endian numbers |

## How to read it

- Code that updates state in place is a class or a method over arrays. It is proved against a value-level function,
  and the laws are lemmas about that function or about the state.
- TCP positions are unbounded integers; sequence numbers are their residues. `SenderInv` ties the buffer to the
  stream of everything the caller asked to send.
- An ext2 position is a path: an inode slot, then an entry index per indirect level. One ghost map gives each block in
  use its single owning position, with file 0 for a block left behind by a file now gone; `Lost` is that set, and
  `LostIsUnreached` says it is what is marked and what no pointer reaches. `Valid` is that map with true books.
- `Mounted` adds that every inode reads back from its slot, no block lies past a file's end, every directory is an exact
  tiling with distinct names, every name stands for an inode there is, and every named file has as many links as names
  (a file that `create` took but could not name has none). Every successful operation takes `Mounted` and gives it
  back, so the laws hold on every run of successful operations; `create`, `link` and `unlink` give it back on every
  refusal too, but for those named under "Left out". `Steady` is `Mounted` without the names and link counts.
- A schema type carries the declarations it names, so one recursion covers structs, arrays and bounded collections.
  `Encode` and `Read` are the wire form; the emitted programs and the running codecs are proved equal to them.

## Where the code and its documentation or a standard differ

The model follows the code.

- `tcp::parse` documents that a zero checksum is refused (api/net/src/tcp.rs:179-181); it accepts one whose other
  words already sum to a multiple of 65535.
- `snd_una` is copied from any acknowledgement taken in order (api/net/src/tcp.rs:785, 821), so a connection can be
  `Done` with its FIN unacknowledged. The exact condition is proved. The invariants are about the buffer instead.
- `decompress` does not refuse y at or above p, which step 1 of section 5.1.3 of RFC 8032 asks for. The round trip is
  an equivalence with y below p; the encoding of p+1 is a witness that decodes and does not come back.
- The device tree walk inherits cell counts from the parent (drivers/devicetree/src/lib.rs:886-888); section 2.3.5 of
  the Devicetree Specification does not.
- `truncate` keeps the tail of the last kept block (api/ext2/src/lib.rs:904-953), so growing a file again shows old
  bytes there. Content laws say which bytes change, not that gaps read as zero.
- `link` meeting a hole fills it with a blank block and then reports `Corrupt` (api/ext2/src/lib.rs:998-1008), and
  `create` keeps the inode it took when `link` fails (api/ext2/src/lib.rs:1173-1205).
- `alloc_inode` gives up on a group whose first free inode is reserved (api/ext2/src/lib.rs:957-978). It succeeds
  exactly when some group's first free inode is not reserved; a volume with eleven free inodes and none to be had is
  shown. With the reserved inodes marked, as the format wants, that is whenever one is free.
- `unlink` frees the blocks of a regular file only (api/ext2/src/lib.rs:1151-1160), against its own comment that space
  nothing names is space no tool reclaims (1082-1084). The last name of a long symbolic link leaves its blocks marked
  with nothing leading to them. Every block is still reached exactly when the target had another name, was a regular
  file or held no block; a volume where one is lost is shown.
- `free_block` and `free_inode` do not look whether what they free is in use (api/ext2/src/lib.rs:873-885, 1048-1060).
  The counts stay true exactly when it was.
- An array of strings or vectors as a table field is accepted by the checker, but its envelope size is a constant
  while its content varies, and the emitted element type is not a legal path. `Storable` leaves it out.

## Model

| member | source | states |
|---|---|---|
| TcpNetwork.StreamsArriveInOrder | api/net/src/tcp.rs:478-843 | Two established ends over a network that loses, repeats and reorders: on every run each end has been given a prefix of what the other passed to `send`; an end that saw the FIN has been given all of it; every byte not yet taken is still in the buffer of a sender that has not aborted |
| TcpNetwork.DoneMeansBothTaken | api/net/src/tcp.rs:826-841 | Between two such ends `Done` is reached only when both directions have been taken whole |
| TcpNetwork.AckedUna | api/net/src/tcp.rs:678-720 | An acknowledgement the peer really sent never releases a byte the peer has not taken |
| TcpNetwork.NextInStream | api/net/src/tcp.rs:803-841 | A segment that starts where the receiver stands carries exactly the bytes it lacks next, whatever the sequence numbers wrapped to |
| TcpNetwork.RetransmitIsClean | api/net/src/tcp.rs:621-668 | A retransmission carries the current acknowledgement and never a SYN or RST |
| TcpRun.SendBufferAlwaysContiguous | api/net/src/tcp.rs:551-606 | Against an arbitrary peer, after every run of calls: at most four held segments, contiguous, in order, ending exactly at `snd_nxt` |
| TcpRun.SameNumberSameByte | api/net/src/tcp.rs:621-668 | A sequence number put on the wire twice carries the same symbol both times |
| TcpRun.EmittedAt | api/net/src/tcp.rs:444-545 | Every segment ever emitted carries its own slice of the one stream the connection was asked to send |
| TcpRun.DoneWithFinStillHeld | api/net/src/tcp.rs:819-841 | A concrete peer that leaves the connection `Done` with its FIN unacknowledged, because `snd_una` is copied unchecked |
| TcpRun.DoneLeavesHeldIff | api/net/src/tcp.rs:819-841 | From `FinWait`, one segment leads to `Done` with something still held exactly when it is an in-order FIN without an ACK, `snd_una` already stands at `snd_nxt`, and the buffer is not empty |
| TcpStream.SeqLeqIsOrder | api/net/src/tcp.rs:320-322 | Within half the sequence space the wrapping comparison is the order of the unbounded positions |
| TcpStream.AckReleasesAsUnbounded | api/net/src/tcp.rs:678-720 | An acknowledgement within 2^31 of what is held releases exactly the prefix that unbounded integers would |
| TcpStream.ReleasedReach | api/net/src/tcp.rs:678-720 | What is released reaches no further than the position acknowledged, and the next segment is not covered by it |
| TcpStream.AcknowledgeKeeps | api/net/src/tcp.rs:678-720 | Any acknowledgement at all leaves a suffix of the buffer in place and moves nothing but the buffer and the timer |
| TcpStream.SegmentKeeps | api/net/src/tcp.rs:766-843 | Any segment at all: the buffer loses only a prefix, and the reply carries no new symbols |
| TcpConnection.Connection.Queue | api/net/src/tcp.rs:551-572 | The in-place four-slot buffer takes a segment as the value-level connection does |
| TcpConnection.Connection.Syn | api/net/src/tcp.rs:444-457 | The class refines the SYN step |
| TcpConnection.Connection.Send | api/net/src/tcp.rs:478-516 | The class refines `send`, refusals included: wrong state, no slot, closed window, no room in the output |
| TcpConnection.Connection.Close | api/net/src/tcp.rs:521-545 | The class refines `close` |
| TcpConnection.Connection.OnTimeout | api/net/src/tcp.rs:621-668 | The class refines the timeout: backoff, retransmission of the front segment, and giving up |
| TcpConnection.Connection.SampleRtt | api/net/src/tcp.rs:730-754 | The class refines the smoothed estimate and the bounded timeout |
| TcpConnection.Connection.ScanCovered | api/net/src/tcp.rs:678-702 | The scanning loop finds how many front segments are covered and the one sample it may take |
| TcpConnection.Connection.Release | api/net/src/tcp.rs:706-709 | The shifting loop drops exactly the released prefix and keeps the slots gap free |
| TcpConnection.Connection.Acknowledge | api/net/src/tcp.rs:678-720 | The class refines the cumulative acknowledgement |
| TcpConnection.Connection.OnSegment | api/net/src/tcp.rs:766-843 | The class refines the whole receive path, every branch and every reply |
| TcpConnection.ReleasedIs | api/net/src/tcp.rs:681-702 | A scan that stops at the first uncovered segment has counted what the acknowledgement releases |
| TcpTimer.TimeoutAlwaysInBounds | api/net/src/tcp.rs:730-754 | In every reachable state the timeout is between 200 ms and 60 s and SRTT between the smallest and largest measurement |
| TcpTimer.SmoothingStaysBetween | api/net/src/tcp.rs:730-754 | One smoothing step cannot leave an interval that holds the estimate and the measurement |
| TcpTimer.EstimatorFits | api/net/src/tcp.rs:730-754 | No intermediate of the estimator exceeds 64 bits while measurements stay below an eighth of 2^64 |
| TcpTimer.SilentPeerIsGivenUp | api/net/src/tcp.rs:599-668 | A caller waking at each deadline with no acknowledgement sees at most three retransmissions and reaches `Aborted` by the later of the deadline and eight seconds after the first send |
| TcpTimer.FreshConnectionSchedule | api/net/src/tcp.rs:599-668 | From a fresh SYN the attempts fall at 1, 3 and 7 seconds and the end at 8 |
| TcpWire.Write | api/net/src/tcp.rs:139-174 | Writing a segment into the buffer: refused exactly when it does not fit, otherwise exactly its bytes with a verifying checksum |
| TcpWire.RoundTrip | api/net/src/tcp.rs:139-203 | A written segment verifies and parses back to the same fields over IPv4 and IPv6 |
| TcpWire.SegmentRoundTrip | api/net/src/tcp.rs:139-203 | What a connection emits arrives as the segment it emitted |
| TcpWire.ZeroChecksumRefusedIff | api/net/src/tcp.rs:176-203 | A zero checksum field is refused exactly when the rest does not already sum to a multiple of 65535 |
| TcpWire.ZeroChecksumAccepted | api/net/src/tcp.rs:176-203 | One segment with a zero checksum that `parse` accepts, against its documentation |
| Ext2Fs.Fs.FirstFreeBit | api/ext2/src/lib.rs:439-452 | The first clear bit below the limit, every bit below it set, or none exactly when every bit is set |
| Ext2Fs.Fs.ClaimBit | api/ext2/src/lib.rs:410-424 | A set bit is never handed out: it sets exactly one clear bit, or fails and changes nothing |
| Ext2Fs.Fs.ReleaseBit | api/ext2/src/lib.rs:426-437 | Clears exactly one bit |
| Ext2Fs.Fs.Account | api/ext2/src/lib.rs:458-492 | Moves the group and superblock counts together, and fails exactly when one would leave its field |
| Ext2Alloc.RebookedIsBooked | api/ext2/src/lib.rs:410-492 | Toggling one bit and moving both counts keeps every free count, per group and in total, equal to the number of clear bits |
| Ext2Alloc.ToggleStage | api/ext2/src/lib.rs:410-437 | With only the bit changed, exactly one count is off, by exactly one |
| Ext2Bits.ClearBitsAfter | api/ext2/src/lib.rs:410-437 | Changing one bit moves the count of clear bits by exactly that bit |
| Ext2Fs.Fs.AllocBlock | api/ext2/src/lib.rs:495-519 | Hands out a block that was free, is data, is now marked and zeroed; fails only when every block is in use, and then changes nothing |
| Ext2Fs.Fs.FreeBlock | api/ext2/src/lib.rs:873-885 | Gives back exactly that block; an unused one is not noticed, and the counts stay true exactly when the block was in use |
| Ext2Conservation.EveryBlockAccounted | api/ext2/src/lib.rs:458-519 | Free, metadata and owned blocks make up the volume, none counted twice |
| Ext2Conservation.FreePlusHeldIsConstant | api/ext2/src/lib.rs:791-954 | Conservation: the free count, the metadata, the blocks left behind and the sector counts of all inodes always add up to the volume |
| Ext2Fs.Fs.Resolve | api/ext2/src/lib.rs:551-587 | The block at a file index, through up to three indirect levels; a hole is none; past them `Corrupt` |
| Ext2Map.PathOfInjective | api/ext2/src/lib.rs:551-587 | Distinct file indices take distinct pointer paths at every indirect level |
| Ext2Map.PathOfIsLeaf | api/ext2/src/lib.rs:551-587 | Every reachable index decomposes into a full path of in-range entry indices |
| Ext2Fs.Fs.ReadAt | api/ext2/src/lib.rs:754-781 | Returns exactly the file content, holes as zeros, clipped at the size; fails only past the last indirect level |
| Ext2Fs.Fs.ResolveOrAlloc | api/ext2/src/lib.rs:791-830 | Fills the hole at one index with a fresh zeroed block: `resolve` answers as before at every other index of every file, and no file byte changes |
| Ext2Fs.Fs.WriteChunk | api/ext2/src/lib.rs:846-862 | One read-modify-write changes exactly the bytes of the chunk |
| Ext2Fs.Fs.WriteAt | api/ext2/src/lib.rs:838-870 | Exactly bytes [offset, offset+len) of that one file become the given bytes, no byte of any other file changes, no block is lost, and the volume is mounted again; fails only past the reach of the indirect block or when the volume is exhausted |
| Ext2Fs.Fs.FlushInode | api/ext2/src/lib.rs:522-543 | The inode read back from its slot is the inode written; every other slot reads as it did |
| Ext2Inode.FlushedParses | api/ext2/src/lib.rs:245-275 | An inode written over a slot of its kind parses back to itself |
| Ext2Fs.Fs.Truncate | api/ext2/src/lib.rs:897-954 | Succeeds exactly for a regular file within direct and single indirect blocks and a length not above the size; then exactly the blocks past the new end become holes and are freed, none is lost, and every link count stays true |
| Ext2Fs.Fs.DropBlock | api/ext2/src/lib.rs:910-940 | Frees the block at one index and clears only that pointer |
| Ext2Fs.Fs.ReadInode | api/ext2/src/lib.rs:593-648 | Any inode number in range reads its slot; out of range is `Corrupt` |
| Ext2Fs.Fs.LookupIn | api/ext2/src/lib.rs:656-730 | Lookup is the first entry with that name in the walk of the directory, every error case included |
| Ext2Dir.FindInMap | api/ext2/src/lib.rs:713-730 | Finding a name in a listing is looking it up in the name map |
| Ext2Dir.WalkSplits | api/ext2/src/lib.rs:656-708 | A walk is the records up to a boundary, then the walk from there |
| Ext2Dir.InsertedLists | api/ext2/src/lib.rs:999-1039 | Splitting a record for a new name keeps the block an exact tiling and adds exactly that entry |
| Ext2Dir.BlankedLists | api/ext2/src/lib.rs:1137-1149 | Blanking the first record keeps the tiling and removes exactly that entry |
| Ext2Dir.AbsorbedLists | api/ext2/src/lib.rs:1137-1149 | Absorbing a record into the one before it keeps the tiling and removes exactly that entry |
| Ext2Dir.AddedMap | api/ext2/src/lib.rs:985-1045 | Adding an entry with a new name extends the name map by exactly that name |
| Ext2Dir.RemovedMap | api/ext2/src/lib.rs:1089-1170 | Removing an entry removes exactly its name from the map |
| Ext2Names.DirAdded | api/ext2/src/lib.rs:985-1045 | A change inside one directory block is that change of the whole listing |
| Ext2Names.DirRemoved | api/ext2/src/lib.rs:1089-1170 | Likewise for a removal |
| Ext2Scan.RoomIn | api/ext2/src/lib.rs:999-1016 | The first record with enough slack, no record before it having it; none exactly when no record has it |
| Ext2Fs.Fs.Link | api/ext2/src/lib.rs:985-1045 | One entry more in this directory and no other file changed; succeeds exactly when a block with room comes before any hole; a new name for an inode short of one name leaves the volume mounted; a name already listed is not looked for and leaves two entries; a full directory without holes is `Full` and unchanged |
| Ext2Fs.Fs.TryBlock | api/ext2/src/lib.rs:997-1041 | One turn of the search: fails exactly at a hole or past the indirect block, otherwise enters the name exactly when a record of that block has room |
| Ext2Fs.Fs.Unlink | api/ext2/src/lib.rs:1089-1170 | On any mounted volume: the name map loses exactly this name and the target one link; the last link frees the inode, and the blocks of a regular file; every refusal and success condition is exact and every refusal but the too-large one changes nothing; link counts stay true; if every block was reached before, every block is reached after exactly when the target keeps a link, is regular or counts no sector |
| Ext2Links.NameRemoved | api/ext2/src/lib.rs:1137-1163 | Taking out a name and one link of what it stood for keeps every name standing for an inode and every link count equal to the number of names |
| Ext2Links.NameAdded | api/ext2/src/lib.rs:985-1045 | So does adding a name for an inode that has one link more than names |
| Ext2Volume.LostIsUnreached | api/ext2/src/lib.rs:1151-1160 | A lost block is one that is marked and that no pointer of any file reaches |
| Ext2Inodes.LossIff | api/ext2/src/lib.rs:1151-1160 | Nothing having been lost, something is lost exactly if the last link of something other than a regular file went and it counted sectors |
| Ext2Lost.UnlinkLosesABlock | api/ext2/src/lib.rs:1151-1160 | On a concrete mounted volume, removing the only name of a symbolic link with one block succeeds and leaves the block marked and unreached |
| Ext2Lost.VolumeIsMountable | api/ext2/src/lib.rs:312-330 | That volume satisfies everything a mounted volume does |
| Ext2Fs.Fs.FindEntry | api/ext2/src/lib.rs:1104-1131 | Finds the record of a name and the record before it, or the name is not listed |
| Ext2Fs.Fs.DropLink | api/ext2/src/lib.rs:1151-1163 | Drops one link of any inode but a directory; the last one frees the inode, and exactly the blocks of what is not a regular file are lost |
| Ext2Fs.Fs.Bury | api/ext2/src/lib.rs:1156-1160 | An inode written back, stamped and freed leaves every other inode and file as it was; the blocks it still holds are lost |
| Ext2Fs.Fs.AllocInode | api/ext2/src/lib.rs:957-978 | A free, unreserved inode is marked and counted; succeeds exactly when the first free inode of some group is not reserved |
| Ext2Inodes.TakableIffFree | api/ext2/src/lib.rs:957-978 | With the reserved inodes marked, an inode can be taken exactly when one is free |
| Ext2Fresh.FreeButNotFound | api/ext2/src/lib.rs:957-978 | A sound volume with eleven free inodes, inode 11 among them, from which none can be taken |
| Ext2Fs.Fs.FreeInode | api/ext2/src/lib.rs:1048-1060 | Gives back exactly that inode; an unused one is not noticed, and the counts stay true exactly when it was in use |
| Ext2Fs.Fs.SetDtime | api/ext2/src/lib.rs:1063-1069 | Stamps a freed slot without touching any other file |
| Ext2Fs.Fs.Create | api/ext2/src/lib.rs:1173-1205 | A new empty file under exactly this name; succeeds exactly when the directory has room and an inode can be taken; every other file is untouched; without an inode nothing changes, and without room one nameless inode stays taken on a mounted volume with the same listing |
| Ext2Fresh.FreshIsMountable | api/ext2/src/lib.rs:312-330 | A concrete fresh volume satisfies everything a mounted volume is taken to satisfy |
| Field.CarryPass | api/ed25519/src/field.rs:90-104 | One carry pass over limbs below 2^63 keeps the value and settles every limb |
| Field.Reduce | api/ed25519/src/field.rs:90-104 | Limbs below 2^63 settle below 2^51 in two passes with the same value modulo p |
| Field.Add | api/ed25519/src/field.rs:106-112 | The sum modulo p, limbs below 2^51, no 64-bit overflow |
| Field.Sub | api/ed25519/src/field.rs:114-127 | The difference modulo p, no underflow in any limb |
| Field.Neg | api/ed25519/src/field.rs:235-241 | The negation modulo p |
| Field.ProductFolds | api/ed25519/src/field.rs:132-148 | The five folded columns stand for the product modulo p |
| Field.Columns | api/ed25519/src/field.rs:135-148 | The column sums, each within 128 bits |
| Field.FoldColumns | api/ed25519/src/field.rs:150-158 | Carrying the columns down keeps the value modulo p within 64-bit limbs |
| Field.Mul | api/ed25519/src/field.rs:129-159 | The product modulo p with settled limbs and no 128-bit overflow, for any limbs below 2^63 |
| Field.Square | api/ed25519/src/field.rs:161-164 | The square modulo p |
| FieldBytes.ToBytes | api/ed25519/src/field.rs:55-87 | The 32 bytes of the one representative below p |
| FieldBytes.Overflows | api/ed25519/src/field.rs:61-66 | Carrying nineteen through settled limbs decides whether they reach p |
| FieldBytes.PutLimb | api/ed25519/src/field.rs:76-86 | Setting a limb bit by bit adds it at its weight |
| FieldBytes.FromBytes | api/ed25519/src/field.rs:39-52 | The number the bytes spell without its top bit |
| FieldBytes.LimbIs | api/ed25519/src/field.rs:40-50 | Eight bytes and a shift cover each 51-bit limb |
| FieldBytes.Equal | api/ed25519/src/field.rs:225-229 | Comparing encodings is equality modulo p |
| FieldBytes.IsZero | api/ed25519/src/field.rs:221-223 | Zero modulo p |
| FieldBytes.IsNegative | api/ed25519/src/field.rs:231-233 | The parity of the canonical representative |
| FieldPowers.SquareTimes | api/ed25519/src/field.rs:166-172 | Squaring n times multiplies the exponent by 2^n |
| FieldPowers.Pow2To250Minus1 | api/ed25519/src/field.rs:184-207 | The chain yields x^(2^250-1) and x^11 for every element |
| FieldPowers.Invert | api/ed25519/src/field.rs:209-214 | Exactly x^(p-2) |
| FieldPowers.PowP58 | api/ed25519/src/field.rs:216-219 | Exactly x^((p-5)/8) |
| PrimeField.Fermat | api/ed25519/src/field.rs:209-214 | Fermat's little theorem, on which inversion by powering rests |
| EdwardsComplete.InverseInverts | api/ed25519/src/field.rs:209-214 | The power p-2 of a nonzero element is its inverse, p being prime |
| EdwardsPoint.DIsTheQuotient | api/ed25519/src/lib.rs:52-57 | The curve constant is -121665/121666 |
| EdwardsPoint.SqrtM1Squares | api/ed25519/src/lib.rs:59-63 | The constant root squares to -1 |
| EdwardsPoint.Decompress | api/ed25519/src/lib.rs:107-146 | What it returns is on the curve with Z=1, T=XY, the encoded y and the asked parity of x; it returns nothing exactly when neither candidate is on the curve or a sign is set over x=0 |
| EdwardsComplete.RootFound | api/ed25519/src/lib.rs:107-146 | If any x solves the curve equation for y, the one tried does |
| SquareRoots.RootOfRatio | api/ed25519/src/lib.rs:107-146 | Modulo any prime that is 5 modulo 8: if u/v has a square root, the candidate power or its product with the root of -1 is one |
| EdwardsComplete.NoPointIff | api/ed25519/src/lib.rs:107-146 | Bytes are turned away exactly when they spell no point of the curve |
| EdwardsComplete.PointUnique | api/ed25519/src/lib.rs:107-146 | Bytes spell at most one point |
| EdwardsPoint.Compress | api/ed25519/src/lib.rs:152-159 | The canonical y with the parity of x in the top bit |
| EdwardsPoint.RoundTrip | api/ed25519/src/lib.rs:107-159 | Compressing the point that bytes spell gives the bytes back exactly when they spelled a y below p |
| EdwardsComplete.AboveIsDecoded | api/ed25519/src/lib.rs:107-146 | The 32 bytes of p+1 spell a y that is not below p, and they are decoded all the same |
| EdwardsComplete.EncodingDecodes | api/ed25519/src/lib.rs:107-159 | The encoding of any curve point is decoded, and to that point |
| EdwardsPoint.LessThan | api/ed25519/src/lib.rs:299-310 | The byte loop compares the little-endian numbers |
| IslLayout.AlignUpIs | api/isl/src/ir.rs:360-363 | The bit mask rounds up to the least multiple of the alignment |
| IslLayout.LowerStruct | api/isl/src/check.rs:295-344 | The cursor loop places every field as the layout functions say, and accepts exactly the declarations whose fields are inline and not optional |
| IslLayout.FieldPlaced | api/isl/src/check.rs:312-324 | Each field starts aligned, at the first such place after the previous field |
| IslLayout.FieldsApart | api/isl/src/check.rs:312-324 | Fields come in declaration order and never overlap |
| IslLayout.StructSize | api/isl/src/check.rs:325-333 | The size covers the fields, is a multiple of the alignment, and wastes less than one unit |
| IslLayout.InlineSizeAligned | api/isl/src/ir.rs:368-394 | An inline size is a multiple of its alignment, so array elements stay aligned |
| IslCodec.OnlyKnownBitsIff | api/isl/src/codegen_rust.rs:97-140 | The bits mask test accepts exactly the values made of declared members' bits |
| IslEmit.EmitStruct | api/isl/src/codegen_rust.rs:707-768 | The emitting loop produces, gap for gap and field for field, the lines the layout calls for |
| IslEmit.ProgramWrites | api/isl/src/codegen_rust.rs:725-741 | The emitted encoder lines write the struct's canonical form |
| IslEmit.ProgramScans | api/isl/src/codegen_rust.rs:745-768 | The emitted decoder lines read exactly that form |
| IslRoundTrip.StructImage | api/isl/src/codegen_rust.rs:707-744 | A struct's encoding has the compiled size, each field's own encoding at its compiled offset and zero everywhere else |
| IslRoundTrip.PictureUnique | api/isl/src/codegen_rust.rs:707-744 | Only one byte string of that size is such a picture |
| IslRoundTrip.InlineLength | api/isl/src/codegen_rust.rs:727-744 | An inline value takes exactly its type's size |
| IslRoundTrip.LengthBound | api/isl/src/ir.rs:368-381 | A bounded collection takes at most its size at full capacity |
| IslRoundTrip.RoundTrip | api/isl/src/codegen_rust.rs:540-632 | Every valid value of every type decodes from its encoding to itself and leaves what follows |
| IslRoundTrip.Canonical | api/isl/src/codegen_rust.rs:574-632 | Bytes that decode are exactly the encoding of the value they decode to, and that value is valid |
| IslRoundTrip.DecodesIff | api/isl-runtime/src/lib.rs:139-153 | The bytes that decode to a value are its encoding and no others |
| IslRoundTrip.Encodable | api/isl-runtime/src/io.rs:170-197 | A value that decoding can give is one that encoding takes; only encoding admits undeclared bits |
| IslIo.Writer.WriteBytes | api/isl-runtime/src/io.rs:34-46 | Writes after what was written, exactly when there is room; a refusal writes nothing |
| IslIo.Writer.WriteZeros | api/isl-runtime/src/io.rs:49-58 | Likewise for padding |
| IslIo.Reader.Take | api/isl-runtime/src/io.rs:138-143 | The next n bytes, or `ShortBuffer` and no movement |
| IslIo.Reader.ExpectZeros | api/isl-runtime/src/io.rs:150-156 | Accepts exactly zero bytes |
| IslIo.Reader.Sub | api/isl-runtime/src/io.rs:190-196 | A reader over a payload keeps the handle bound |
| IslIo.Reader.Finish | api/isl-runtime/src/io.rs:199-205 | Fails exactly when bytes are left |
| IslIo.EncodeValue | api/isl/src/codegen_rust.rs:540-572 | Running the generated encoder over any buffer writes the canonical form, exactly when it fits, and touches nothing before the cursor |
| IslIo.EncodeStruct | api/isl/src/codegen_rust.rs:707-744 | Compiling a struct and running its encoder lines does the same |
| IslIo.DecodeValue | api/isl/src/codegen_rust.rs:574-632 | Running the generated decoder gives the value, the bytes left or the very error the parse defines |
| IslIo.DecodeStruct | api/isl/src/codegen_rust.rs:746-768 | Likewise for a compiled struct's decoder lines |
| IslIo.EncodeInto | api/isl-runtime/src/lib.rs:139-143 | `encode` writes the canonical bytes, exactly when the buffer is long enough |
| IslIo.DecodeFrom | api/isl-runtime/src/lib.rs:147-153 | `decode` returns a value exactly when the bytes are that valid value's encoding |
| IslTable.CheckOrdinals | api/isl/src/check.rs:926-937 | Accepts exactly the members with no ordinal reused |
| IslTable.SortIs | api/isl/src/codegen_rust.rs:420-436 | The compiled fields are the declared ones in ascending order |
| IslTable.DeclarationOrderIrrelevant | api/isl/src/codegen_rust.rs:420-436 | The compiled order does not depend on the order of declaration |
| IslTable.EncodedLenIs | api/isl-runtime/src/bounded.rs:101-103 | The length announced in an envelope is the length written |
| IslEvolution.ReadAcrossVersions | api/isl/src/codegen_rust.rs:400-536 | A table written under one schema and read under another that agrees where both have an ordinal comes back as exactly the fields the reader knows |
| IslEvolution.OlderReads | api/isl/src/codegen_rust.rs:502-536 | Any bytes a newer schema decodes, an older one decodes to the same value cut down to its own fields |
| IslEvolution.TableRoundTrip | api/isl/src/codegen_rust.rs:400-536 | Under one schema a table decodes to itself |
| IslEvolution.TableCanonicalIff | api/isl/src/codegen_rust.rs:448-536 | Bytes that decode are the table's encoding exactly when their count is the number of fields decoded |
| IslEvolution.CountIsSize | api/isl/src/codegen_rust.rs:455-463 | The count written is the number of fields present |
| IslUnion.UnionRoundTrip | api/isl/src/codegen_rust.rs:231-389 | A choice decodes to itself, unknown variants included |
| IslUnion.UnionCanonical | api/isl/src/codegen_rust.rs:346-389 | Bytes that decode are the encoding of the choice they decode to |
| IslUnion.UnknownVariant | api/isl/src/codegen_rust.rs:346-389 | A variant the reader lacks: `BadUnionTag` if strict, `BoundExceeded` above `MAX_PAYLOAD`, otherwise kept byte for byte |
| IslUnion.UnknownRelayed | api/isl/src/codegen_rust.rs:300-389 | Passed on by an older program, an unknown variant that fitted reaches a newer one unchanged |
| IslRecords.EncodeTableTo | api/isl/src/codegen_rust.rs:448-479 | Running the generated table encoder writes the canonical form, exactly when it fits |
| IslRecords.DecodeTable | api/isl/src/codegen_rust.rs:502-536 | Running the generated table decoder agrees with the parse, value or error |
| IslRecords.EncodeUnionTo | api/isl/src/codegen_rust.rs:286-323 | Running the generated union encoder writes the canonical form, exactly when it fits |
| IslRecords.DecodeUnion | api/isl/src/codegen_rust.rs:347-389 | Running the generated union decoder agrees with the parse, value or error |
| Sha.Sha256.Update | api/hash/src/lib.rs:99-131 | However much is buffered, the object has absorbed exactly the bytes given |
| Sha.Sha256.Finish | api/hash/src/lib.rs:133-155 | The state is the compression function folded over the padded message |
| Sha.Digest256 | api/hash/src/lib.rs:99-163 | Every way of cutting a message into updates gives the digest of the whole message |
| Sha.Sha512.Update | api/hash/src/sha512.rs:165-192 | As for SHA-256 |
| Sha.Sha512.PadByte | api/hash/src/sha512.rs:217-225 | One padding byte, folding a block as soon as it is complete |
| Sha.Sha512.PadToLength | api/hash/src/sha512.rs:198-201 | The padding loop comes round to offset 112 within one block |
| Sha.Sha512.Finish | api/hash/src/sha512.rs:194-213 | The state is the compression function folded over the padded message |
| Sha.Digest512 | api/hash/src/sha512.rs:165-225 | Every way of cutting a message into updates gives the digest of the whole message |
| Sha.GapUnique | api/hash/src/lib.rs:133-150 | The zero padding is the only one short of a block that makes whole blocks |
| Sha.FoldAppend | api/hash/src/lib.rs:99-131 | Whole blocks fold one part after the other |
| Checksum.Add | api/net/src/checksum.rs:42-52 | The 32-bit accumulator takes the big-endian 16-bit words, an odd byte padded, without overrun |
| Checksum.FoldIsResidue | api/net/src/checksum.rs:65-71 | Folding sees the sum only modulo 65535 and whether it is zero |
| Checksum.Completes | api/net/src/checksum.rs:65-71 | Filling in the checksum of what was summed with zero there makes the whole verify |
| Udp.SumPseudoHeader | api/net/src/udp.rs:51-67 | The pseudo-header sum, piece by piece, for either family |
| Udp.Write | api/net/src/udp.rs:78-101 | Refused exactly when it does not fit, otherwise exactly the datagram's bytes and nothing around them |
| Udp.RoundTrip | api/net/src/udp.rs:78-145 | A written datagram parses back over either family, whatever follows it |
| Udp.ParsedVerifies | api/net/src/udp.rs:116-145 | What parses verifies, or over IPv4 only carries the no-checksum mark |
| IpHeaders.EthWrite | api/net/src/eth.rs:33-41 | The Ethernet header, exactly when it fits |
| IpHeaders.V4Write | api/net/src/ipv4.rs:43-71 | The IPv4 header with its checksum, exactly when header and payload fit |
| IpHeaders.V4RoundTrip | api/net/src/ipv4.rs:43-125 | A written header verifies and cuts its payload out of any padding |
| IpHeaders.V6Write | api/net/src/ipv6.rs:131-155 | The IPv6 header, exactly when header and payload fit |
| IpHeaders.V6RoundTrip | api/net/src/ipv6.rs:131-200 | A written header parses back and cuts its payload out of any padding |
| Frames.BuildUdpFrame | api/net/src/lib.rs:80-115 | All three layers, or nothing exactly when the frame does not fit |
| Frames.FrameRoundTrip | api/net/src/lib.rs:379-407 | A built frame with any padding appended gives back exactly what went in |
| Frames.BuildUdp6Frame | api/net/src/lib.rs:126-165 | Likewise over IPv6, only to a group |
| Frames.Frame6RoundTrip | api/net/src/lib.rs:230-265 | A built IPv6 frame with any padding appended gives back exactly what went in |
| Nvme.NewRing | drivers/nvme/src/lib.rs:521-531 | A ring reader, refused exactly for zero entries |
| Nvme.CompletionRing.Poll | drivers/nvme/src/lib.rs:542-572 | The reader answers and moves as the value-level poll says |
| Nvme.NothingNew | drivers/nvme/src/lib.rs:542-572 | With everything read the next slot still carries the old phase, so a poll finds nothing |
| Nvme.NextIsThere | drivers/nvme/src/lib.rs:542-572 | With something unread the next slot holds exactly the next completion |
| Nvme.ReadInOrder | drivers/nvme/src/lib.rs:519-572 | For every interleaving and any number of wraps, what was read is a prefix of what was posted |
| Nvme.PollTakesTheNext | drivers/nvme/src/lib.rs:519-572 | Nothing is missed: a poll with something unread takes it |
| Fdt.FlatRuns | drivers/devicetree/src/lib.rs:537-574 | The stack machine over a tree's tokens does what the recursion on the tree does, with the parent's cell counts |
| Fdt.NopsDoNothing | drivers/devicetree/src/lib.rs:537-574 | No-op tokens anywhere change nothing |
| Fdt.WalkIsRecursion | drivers/devicetree/src/lib.rs:233-244 | The walk over bytes that flatten a tree finds exactly what the recursion defines |
| Fdt.EncodeReads | drivers/devicetree/src/lib.rs:537-574 | The bytes of a token list read back as that list |
| Fdt.FlattenedTreeIsRead | drivers/devicetree/src/lib.rs:233-244 | For every tree no deeper than 24, flattened with no-ops anywhere, `memory_regions` is the recursive definition |
| FdtWalk.NodeStack.Enter | drivers/devicetree/src/lib.rs:879-898 | Opens a node that inherits from its parent; fails exactly at the depth limit |
| FdtWalk.NodeStack.Leave | drivers/devicetree/src/lib.rs:900-903 | Closes the innermost node; fails exactly when none is open |
| FdtWalk.NodeStack.Property | drivers/devicetree/src/lib.rs:905-939 | A property changes only the innermost node, as the token step says |
| FdtWalk.NodeStack.CellsInForce | drivers/devicetree/src/lib.rs:871-877 | The cell counts of the closed node's parent |
| FdtWalk.FillRegions | drivers/devicetree/src/lib.rs:951-981 | One region per entry after those already there, every error case included |
| FdtWalk.MemoryRegions | drivers/devicetree/src/lib.rs:233-244 | On any bytes whatever the in-place walk ends, with the result the walk over tokens defines |

## Left out

- TcpNetwork.StreamsArriveInOrder: starts from two established ends and passes fewer than 2^31 - 1 bytes each way, the reach of the wrapping comparison; liveness of delivery and of close is not stated, because the network may drop everything.
- TcpRun.SameNumberSameByte: for streams of at most 2^32 symbols, after which sequence numbers repeat by design.
- TcpRun.SendBufferAlwaysContiguous: `syn` is called once, before anything else is held, as its callers do.
- TcpTimer.EstimatorFits: measurements up to an eighth of 2^64 nanoseconds; the source multiplies without saturating.
- Ext2Fs.Fs.Account: the directory count of a descriptor is not modelled; the modelled callers pass zero for it.
- Ext2Fs.Fs.AllocBlock: assumes the geometry `mkfs` lays out, one group per bitmap and first data block 0 or 1 by block size.
- Ext2Fs.Fs.WriteAt: after an error only `Valid` is promised, because an early return can leave the inode on the medium behind the one in memory.
- Ext2Fs.Fs.Truncate: needs every inode but the one at hand in step with its slot, and no block past a file's end, which a mounted volume has.
- Ext2Fs.Fs.Link: when it meets a hole only `Valid` is promised, because the directory inode on the medium is then behind the one in memory.
- Ext2Fs.Fs.Unlink: after the error for a file too large to cut only `Valid` is promised: the name is gone and the file is not.
- Ext2Fs.Fs.Create: likewise when `link` meets a hole.
- EdwardsComplete.InverseInverts: takes the primality of 2^255-19 as a hypothesis, which is not proved here.
- EdwardsComplete.RootFound: takes the primality of 2^255-19 as a hypothesis.
- EdwardsComplete.NoPointIff: takes the primality of 2^255-19 as a hypothesis.
- EdwardsComplete.PointUnique: takes the primality of 2^255-19 as a hypothesis.
- EdwardsComplete.EncodingDecodes: takes the primality of 2^255-19 as a hypothesis.
- IslTable.EncodedLenIs: member sizes and ordinals fit 32 bits, which the generated literals need to compile.
- IslLayout.LowerStruct: named types are unfolded, so the layout table and the forward-reference diagnostic are not modelled; nor are the diagnostics' texts, rights, availability and ABI headers.
- Nvme.PollTakesTheNext: the controller never overwrites an unread entry; a completion whose submission head exceeds the ring is refused and stays, as in the code.
- Checksum.Add: within the 32-bit accumulator, which every caller's packet size keeps.
- Device I/O errors, sectors and the block cache of ext2: the device is a sequence of blocks and never fails; volumes are below 2 TiB; mount and superblock parsing are left out.
- Clocks, random initial sequence numbers and the network: parameters or the choices of a run.
- TCP passive open, options and the reassembly queue: the code has none.
- SHA compression rounds and digest rendering: the compression function is a parameter; the SHA-512 length is 64 bits, as in the code.
- Point addition, doubling, scalar multiplication and signature verification: the group law is out of scope.
- Device tree header parsing and the other consumers of the walk (CPUs, PSCI, virtio, MMIO, PCI): the same walk with easier folds.
- NVMe controller bring-up, doorbells and command encoding: register I/O.
- Schema lexing, parsing, protocols, and the C, documentation and fuzz back ends: text rendering.
- DHCP, ICMPv6, ARP, USB and the policy, power and report crates: fixed-layout walks and folds that would only add easy members.
