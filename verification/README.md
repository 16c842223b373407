# Verified models of an AVR core package

This project models the parts of the duino-boards package whose correctness is not visible from one function body, and
proves what they are for: the avr-libc heap, the streaming multi-pattern search, the interrupt-driven serial port, in-place
string replacement, the Optiboot boot loader with a virtual boot partition, USB bulk sending, the servo pulse scheduler,
the DNS client, timer-0 timekeeping, number printing and parsing, and the baud-rate setting.

`dafny verify dfyconfig.toml` checks everything.

## Layout

| part | files |
|---|---|
| heap, as a value | `HeapSpec`, `HeapOps`, `HeapAlloc`, `HeapRealloc`, `HeapOutcomes`, `HeapRuns` |
| heap, in RAM bytes | `HeapBytes`, `ReallocBytes`, `Allocator`, `HeapClient` |
| stream search and parseInt | `StreamSearch`, `Parse` |
| serial port | `SerialLine` (state machine), `HardwareSerial` (class) |
| String::replace | `Replacing` (words), `WString` (class) |
| Optiboot | `BootSpec`, `Optiboot` |
| USB, servo, DNS | `UsbSend`; `ServoSpec`, `Servo`; `DnsSpec`, `Dns` |
| time, numbers, baud | `Timer0`; `Numbers`, `Print`; `Baud`; `Arith` |

Each stateful part has a specification on values, about which the run-wide theorems are proved, and a class whose methods
follow the source statement by statement and are proved to compute that specification. A heap, for instance, is a break, a
map from chunk addresses to payload sizes and a free list; the allocator class works on an array of bytes, with headers and
links stored in it as the source stores them, and a ghost field says which heap the bytes represent.

Interrupts are explicit: where the source runs with interrupts on, the class methods call a method that lets any finite
number of interrupt and hardware steps happen in any order. Waiting loops are proved to end under the assumption that the
UART does not stop while it holds a byte and an enabled interrupt is served.

## What turned out not to hold

- realloc corrupts the heap for two families of requests: shrinking a block of 5 or more bytes to 0 or 1 (only malloc raises
  a request to the size of a link), and extending the topmost block by a size of 65534 or 65535 whose end wraps around the
  address space to or above the block's header without the wrap test noticing. `HeapRealloc.ReallocKeepsWF` is the exact condition.
- The growing branch of String::replace works from the right and looks at text it has already replaced. It agrees with
  left-to-right replacement on every text exactly when no nonempty proper suffix of `find` begins `find` or `replace`.
- The same branch can write past its buffer: it makes room for the matches counted from the left and may then replace more.
  Replacing "aa" by "aab" in "aaa" makes room for 4 characters and writes at least 5. It stays within its buffer on every text
  exactly when no nonempty proper suffix of `find` begins `replace`; that `find` overlaps itself does no harm to memory.
- HardwareSerial::write advances the head and enables the interrupt without a guard; an interrupt between the two stores
  can drain the ring, and a stale byte is then sent. Setting the interrupt enable is harmless exactly when the ring has not
  drained. The store to UDR and the clearing of TXC are unguarded too, in write and in the handler: if the UART finishes the
  last byte in between, flush never returns.
- Numbers print as their numerals only in bases up to 128; above, a digit of 128 or more becomes another character, and the
  digit 208 a NUL that ends the output.
- The baud-rate setting is cut to 16 bits before it is compared with 4095, so very low rates get a wrong setting at double
  speed: at 16 MHz, 10 baud gives 3391.
- micros is wrong exactly when the counter reads 255 while an overflow is pending.
- Optiboot on parts up to 8 KB stores the address of `main` as an rjmp displacement, so the reset jump lands one word past
  it; on larger parts only the operand of the reset jump is moved, so the slot must already hold the same opcode; and the
  check that the save vector lies in page 0 compares a byte count with a vector number. Beyond page 0 verification fails.
- The DNS client does not refuse labels over 63 bytes or names over 255, which cannot be read back, and does not understand compressed
  names in the question section. On a packet that ends inside a question's name its loop never ends.
- parseInt does not end when the ignored character is 255, which as a signed char equals the time-out, and the number is the
  last thing in the stream.

## Model

| member | source | states |
|---|---|---|
| HeapSpec.EveryByteInOneChunk | duino-boards/cores/MightyCore/avr-libc/stdlib_private.h:38-41 | Every byte between the heap start and the break lies in exactly one chunk, header included |
| HeapSpec.DeterminedByLive | duino-boards/cores/MightyCore/avr-libc/malloc.c:186-266 | Two well-formed heaps with the same start and the same live blocks are equal: break, chunk sizes and free list hold no trace of history |
| HeapSpec.NothingLive | duino-boards/cores/MightyCore/avr-libc/malloc.c:186-266 | With no live block the free list is empty and the break is back at the heap start |
| HeapAlloc.BestIsBestChunk | duino-boards/cores/MightyCore/avr-libc/malloc.c:86-108 | The search's candidate is the lowest free chunk of minimal sufficient size; it finds none only when every free chunk is too small |
| HeapAlloc.MallocKeepsWF | duino-boards/cores/MightyCore/avr-libc/malloc.c:64-181 | malloc keeps the heap well formed and never raises the break past the caller's limit |
| HeapAlloc.MallocAddsOne | duino-boards/cores/MightyCore/avr-libc/malloc.c:64-181 | Success adds exactly one live block with at least the requested size and leaves every other; failure changes nothing |
| HeapAlloc.MallocIsBestFit | duino-boards/cores/MightyCore/avr-libc/malloc.c:86-146 | When a free chunk is large enough the smallest such one is used and the break stays; it is split, upper end to the caller, exactly when the rest can hold a free-list node |
| HeapAlloc.MallocRaisesLast | duino-boards/cores/MightyCore/avr-libc/malloc.c:157-181 | When no free chunk fits, malloc succeeds exactly when the new chunk stays within the limit, and only the break and the new chunk change |
| HeapAlloc.MallocFailsIff | duino-boards/cores/MightyCore/avr-libc/malloc.c:76-181 | malloc fails if and only if no free chunk holds the request, raised to 2 if smaller, and the break cannot rise by it and a header below the limit |
| HeapAlloc.MallocGrants | duino-boards/cores/MightyCore/avr-libc/malloc.c:76-176 | A granted block exceeds the raised request by less than a free-list node, and not at all when its header is new, from a split or the break |
| HeapOps.FreedKeeps | duino-boards/cores/MightyCore/avr-libc/malloc.c:186-266 | free of a live block, with coalescing on both sides and trimming of the top, keeps the heap well formed and removes exactly that block |
| HeapRealloc.FreedLeavesOthers | duino-boards/cores/MightyCore/avr-libc/malloc.c:186-266 | Even in a heap that is not well formed, free leaves every other live block's place and size |
| HeapRealloc.ReallocServes | duino-boards/cores/MightyCore/avr-libc/realloc.c:42-149 | A safe request either fails and changes nothing, or turns the block into one of at least the new size, in place or elsewhere, and leaves every other block; the heap stays well formed |
| HeapRealloc.ReallocBreaks | duino-boards/cores/MightyCore/avr-libc/realloc.c:57-130 | Each of the unsafe requests leaves a heap that is not well formed |
| HeapRealloc.ReallocKeepsWF | duino-boards/cores/MightyCore/avr-libc/realloc.c:42-149 | realloc keeps the heap well formed if and only if the request is safe: not a shrink of 5 or more bytes to fewer than 2, and not an extension of the topmost block to 65534 or more bytes whose wrapped end lies below the limit |
| HeapRealloc.ShrunkToNothing | duino-boards/cores/MightyCore/avr-libc/realloc.c:69-82 | Concrete input: a block of 10 bytes shrunk to 0 is left without room for a free-list link |
| HeapRealloc.ExtendedPastTop | duino-boards/cores/MightyCore/avr-libc/realloc.c:57-130 | Concrete input: a topmost block of 10 bytes extended to 65534 drops the break to the heap start |
| HeapOutcomes.ReallocFailsIff | duino-boards/cores/MightyCore/avr-libc/realloc.c:57-143 | A safe request fails if and only if its end wraps, or the block must grow, the chunk above cannot take it, no free chunk fits, and the break, over the block itself if that is topmost, cannot rise far enough |
| HeapOutcomes.ShrinkingOutcome | duino-boards/cores/MightyCore/avr-libc/realloc.c:69-82 | Shrinking keeps the address: by 4 bytes or more the block gets exactly the size asked for, else nothing changes |
| HeapOutcomes.GrowingOutcome | duino-boards/cores/MightyCore/avr-libc/realloc.c:84-110 | With a large enough free chunk just above, the address and the break stay, and the block gets exactly the size asked for when more than 4 bytes are left over, else the whole neighbour |
| HeapOutcomes.ExtendingOutcome | duino-boards/cores/MightyCore/avr-libc/realloc.c:117-136 | A topmost block with no free chunk that would do is extended in place exactly when its new end stays below the limit, else nothing changes |
| HeapOutcomes.MovingOutcome | duino-boards/cores/MightyCore/avr-libc/realloc.c:138-148 | Any other growing request returns what malloc returns, and then the old block alone is gone from what malloc leaves; failure changes nothing |
| HeapOutcomes.WrappedFails | duino-boards/cores/MightyCore/avr-libc/realloc.c:57-60 | A safe request whose end passes the top of the address space fails and changes nothing |
| ReallocBytes.HeaderWipedOut | duino-boards/cores/MightyCore/avr-libc/malloc.c:196-198 | After that shrink malloc puts its next header right behind the empty block, and the first statement of freeing that block wipes the header out |
| HeapRuns.EveryRunWellFormed | duino-boards/cores/MightyCore/avr-libc/malloc.c:64-266 | After every legal sequence of malloc, free and safe realloc, with an arbitrary limit at each call, chunks tile the heap, the free list is the free chunks in address order, no two free chunks touch and the topmost chunk is live |
| HeapRuns.EveryRunDisjoint | duino-boards/cores/MightyCore/avr-libc/malloc.c:64-266 | In every reachable state two live blocks share no byte, header included |
| HeapRuns.RunsForgetHistory | duino-boards/cores/MightyCore/avr-libc/malloc.c:64-266 | Two runs that end with the same live blocks end with the same heap |
| HeapRuns.FreeingAllEmpties | duino-boards/cores/MightyCore/avr-libc/malloc.c:186-266 | From any reachable state, freeing the live blocks in any order gives back the empty heap |
| ReallocBytes.GrownSplitWords | duino-boards/cores/MightyCore/avr-libc/realloc.c:99-105 | The three stores that split the neighbour, link before size, leave the right headers and link although the new list node may overlap the old one, and no payload byte of the growing block changes |
| ReallocBytes.MovedPayloads | duino-boards/cores/MightyCore/avr-libc/realloc.c:140-148 | Allocating, copying and freeing carries the old payload to the new block and changes no third block |
| HeapBytes.JoinLowerHolds | duino-boards/cores/MightyCore/avr-libc/malloc.c:245-249 | Two stores merge a chunk into the one below it in memory and change no live payload |
| HeapBytes.LinkedInHolds | duino-boards/cores/MightyCore/avr-libc/malloc.c:218-243 | A chunk linked between its neighbours in memory, its upper neighbour assimilated when adjacent, represents the heap with that chunk inserted |
| Allocator.Allocator.Malloc | duino-boards/cores/MightyCore/avr-libc/malloc.c:64-181 | The in-place code over RAM bytes computes the specified heap and pointer, changes no payload byte of any live block and no RAM outside the heap |
| Allocator.Allocator.Free | duino-boards/cores/MightyCore/avr-libc/malloc.c:186-266 | The in-place code computes the specified heap, changes no payload byte of any other live block and no RAM outside the heap; a null pointer changes nothing at all |
| Allocator.Allocator.Realloc | duino-boards/cores/MightyCore/avr-libc/realloc.c:42-149 | The in-place code computes the specified heap and pointer, keeps the first min(old, new) bytes of the block in all four paths, changes no payload byte of any other live block and no RAM outside the larger of the two heaps; it comes to a store that breaks the heap exactly on the unsafe requests, and the model stops there |
| HeapClient.Play | duino-boards/cores/MightyCore/avr-libc/malloc.c:64-266 | After any session of calls and client writes, performed by the in-place code, every byte the client can count on lies in a live block and RAM holds it |
| HeapClient.LastWriteStands | duino-boards/cores/MightyCore/avr-libc/malloc.c:64-266 | The client can count on what it last wrote through any session that does not overwrite, free or resize it |
| HeapClient.WrittenStands | duino-boards/cores/MightyCore/avr-libc/malloc.c:64-266 | A byte the client writes is known with the value written, at once and through any session that spares it |
| HeapClient.ResizeCarries | duino-boards/cores/MightyCore/avr-libc/realloc.c:42-149 | What the client wrote goes along with a resized block, as far as it has not been cut off |
| StreamSearch.WithinBorder | duino-boards/cores/arduino/Stream.cpp:286-310 | Below the current progress, matching a shorter prefix is a question about the target compared with itself, which is why no failure table is needed |
| StreamSearch.FallBack | duino-boards/cores/arduino/Stream.cpp:284-312 | After a mismatch the inner loops leave the length of the longest proper prefix of the target that the text, new character included, ends with |
| StreamSearch.Feed | duino-boards/cores/arduino/Stream.cpp:268-314 | One character given to all targets: the lowest-numbered target that now ends is returned, and otherwise every index is again the longest proper prefix |
| StreamSearch.Stream.FindMulti | duino-boards/cores/arduino/Stream.cpp:256-319 | Stops at the first stream position where any target ends, having consumed exactly that far, and returns the lowest-numbered target ending there, never one with a character above 127; at time-out no target has ended and every index is exact, so the search can resume; an empty target is found at once |
| StreamSearch.Stream.Find | duino-boards/cores/arduino/Stream.cpp:93-104 | Reads up to and including the first occurrence of the target, or to the end of the stream when there is none |
| StreamSearch.Stream.FindUntil | duino-boards/cores/arduino/Stream.cpp:106-127 | Reads up to the first end of either text; true exactly when it was the target, which wins a tie |
| SerialLine.RingPush | duino-boards/cores/arduino/HardwareSerial_private.h:113-116 | Storing at head and then advancing it, as the receive interrupt does, appends one byte to the ring's contents unless that would meet the tail |
| SerialLine.RingAdvance | duino-boards/cores/arduino/HardwareSerial.cpp:241-243 | Of the two statements the store changes nothing in the ring, and the advance alone takes the stored byte in |
| SerialLine.RingPop | duino-boards/cores/arduino/HardwareSerial.cpp:85-86 | Advancing tail takes the first byte of the ring's contents |
| SerialLine.RingCounts | duino-boards/cores/arduino/HardwareSerial.cpp:152-191 | The two index formulas give the number of bytes waiting and the room left, one slot always staying empty |
| SerialLine.StepKeepsInv | duino-boards/cores/arduino/HardwareSerial.cpp:81-99 | Every step of main code, interrupt or UART keeps conservation of bytes, the truth of the transmit-complete flag, and UDRIE only on a nonempty ring |
| SerialLine.IrqConservesIff | duino-boards/cores/arduino/HardwareSerial.cpp:81-99 | The interrupt sends a byte that was written if and only if the ring is not empty |
| SerialLine.EveryRunConserves | duino-boards/cores/arduino/HardwareSerial.cpp:213-248 | In every interleaving in which UDRIE is set on a nonempty ring, with steps between storing a byte, advancing head and setting UDRIE, the bytes on the wire, then in flight, then in the ring are exactly the bytes passed to write, in order |
| SerialLine.AtomicRunsAreSafe | duino-boards/cores/arduino/HardwareSerial.cpp:243-245 | Interleavings that take advance-head and set-UDRIE as one step satisfy that condition |
| SerialLine.UnguardedPairSendsStaleByte | duino-boards/cores/arduino/HardwareSerial.cpp:243-245 | The source does not guard the pair: from reset, three writes with interrupts in between can send a byte nobody wrote |
| SerialLine.ArmSafeIff | duino-boards/cores/arduino/HardwareSerial.cpp:243-245 | Setting UDRIE after an unguarded gap does no harm, whatever interrupt and UART do afterwards, if and only if the gap has not drained the ring |
| SerialLine.ClearInTimeIff | duino-boards/cores/arduino/HardwareSerial.cpp:220-224 | Storing UDR and clearing TXC unguarded: the flag tells the truth, and the two stores with their gap are a run with the stores made as one, if and only if the UART takes fewer than two steps in between; otherwise everything is sent, TXC is clear, no step is left that sets it, and flush waits for good |
| SerialLine.StuckExample | duino-boards/cores/arduino/HardwareSerial.cpp:220-224 | Concrete input: the first write after reset, with the UART loading and finishing the byte in the gap |
| SerialLine.HandlerClearsInTimeIff | duino-boards/cores/arduino/HardwareSerial.cpp:81-99 | The handler holds the same pair: its flag too tells the truth if and only if the UART takes fewer than two steps in the gap; a late clear leaves the transmitter stuck when the ring is drained and is set right by the next interrupt when it is not |
| SerialLine.StepWorks | duino-boards/cores/arduino/HardwareSerial.cpp:193-211 | Each interrupt or UART step strictly decreases the work left, the measure by which waiting ends |
| HardwareSerial.HardwareSerial.TxUdrEmptyIrq | duino-boards/cores/arduino/HardwareSerial.cpp:81-99 | The handler, with the UART possibly moving on between its store to UDR and its clearing of TXC, is a run of the state machine's Irq step and that of the UART |
| HardwareSerial.HardwareSerial.Write | duino-boards/cores/arduino/HardwareSerial.cpp:213-248 | With interrupts and UART steps between the look at the ring, the store, the head advance and the setting of UDRIE, and between the store to UDR and the clearing of TXC: exactly the given byte is appended to what was accepted, waiting for room ends with interrupts on or off, received bytes stay, an idle transmitter with an empty ring takes the direct path, and afterwards either all is well and the call was a safe run, or the transmitter is stuck, or UDRIE is set on a drained ring |
| HardwareSerial.HardwareSerial.StoreDirect | duino-boards/cores/arduino/HardwareSerial.cpp:220-224 | The shortcut with its gap: all is well exactly when the transmitter does not end up stuck, which it does with everything sent |
| HardwareSerial.HardwareSerial.Enqueue | duino-boards/cores/arduino/HardwareSerial.cpp:242-245 | The path through the ring with a gap after the store and one after the head advance: exactly one byte is appended, and all is well exactly when the ring has not been drained in the second gap |
| HardwareSerial.HardwareSerial.Flush | duino-boards/cores/arduino/HardwareSerial.cpp:193-211 | When anything was ever written, returns only with ring, data register and shift register empty and everything accepted on the wire; the wait ends with interrupts on or off; received bytes stay |
| HardwareSerial.HardwareSerial.RxCompleteIrq | duino-boards/cores/arduino/HardwareSerial_private.h:101-121 | A byte is stored, at the end, exactly when it has no parity error and fewer than N-1 bytes wait; what was stored before is not rewritten |
| HardwareSerial.HardwareSerial.Read | duino-boards/cores/arduino/HardwareSerial.cpp:166-176 | Returns the byte that waits first, or -1 when none waits, with interrupts between loading it and advancing tail; the bytes returned so far followed by those waiting are the bytes stored, whose history only grows, so they come out in order |
| HardwareSerial.HardwareSerial.Peek | duino-boards/cores/arduino/HardwareSerial.cpp:157-164 | The oldest waiting byte, which stays, or -1 when none waited at the start |
| HardwareSerial.HardwareSerial.Available | duino-boards/cores/arduino/HardwareSerial.cpp:152-155 | A number of waiting bytes that was right at some moment during the call |
| HardwareSerial.HardwareSerial.AvailableForWrite | duino-boards/cores/arduino/HardwareSerial.cpp:178-191 | Between the room in the transmit ring when the call begins and when it returns, so at least that many bytes still fit |
| Replacing.SeparatedAgree | duino-boards/cores/arduino/WString.cpp:671-683 | When no nonempty proper suffix of find begins find or replace, replacing from the right in place equals left-to-right replacement on every text |
| Replacing.OverlapsDisagree | duino-boards/cores/arduino/WString.cpp:671-683 | Otherwise the text made of the rest of find followed by find is replaced differently |
| Replacing.RightToLeftIff | duino-boards/cores/arduino/WString.cpp:671-683 | The growing branch equals left-to-right replacement on every text if and only if no nonempty proper suffix of find begins find or replace, which every one-character find satisfies |
| Replacing.LeftIsGreedy | duino-boards/cores/arduino/WString.cpp:667-671 | Counting matches from the left is greedy: up to any match it has found all but that one |
| Replacing.RoomIff | duino-boards/cores/arduino/WString.cpp:666-683 | The growing branch stays within the room it made, on every text and whatever the capacity, if and only if no nonempty proper suffix of find begins replace |
| Replacing.RunsOverExample | duino-boards/cores/arduino/WString.cpp:666-683 | Concrete input: replacing aa by aab in aaa makes room for 4 characters and writes more |
| Replacing.ReplaceLast | duino-boards/cores/arduino/WString.cpp:643-684 | For words that cannot overlap themselves, left-to-right replacement can be peeled from its last match |
| Replacing.NoMatch | duino-boards/cores/arduino/WString.cpp:643-684 | Left-to-right replacement leaves a text without a match as it is |
| Replacing.ReplaceFirst | duino-boards/cores/arduino/WString.cpp:643-684 | With a match it keeps what lies before the first one, puts replace in its place, and goes on behind it |
| WString.WString.LastIndexOf | duino-boards/cores/arduino/WString.cpp:601-612 | The last match starting at or before the given index, or -1 |
| WString.WString.ReplaceEqual | duino-boards/cores/arduino/WString.cpp:648-652 | Same length: the buffer ends up holding the left-to-right replacement, for every find and replace |
| WString.WString.ReplaceShrinking | duino-boards/cores/arduino/WString.cpp:653-665 | Shorter: compacting the buffer over itself gives the left-to-right replacement, for every find and replace |
| WString.WString.ResultSize | duino-boards/cores/arduino/WString.cpp:667-671 | The counting loop computes the length of the left-to-right replacement |
| WString.WString.ChangeBuffer | duino-boards/cores/arduino/WString.cpp:155-164 | More room with the same contents, or no change when none is granted |
| WString.WString.ReplaceGrowing | duino-boards/cores/arduino/WString.cpp:666-683 | Longer: the buffer ends up holding the right-to-left replacement, or is unchanged when no room is granted; a write past the buffer is reached exactly when that replacement is longer than both the room counted and the capacity, and the model stops there |
| WString.WString.ReplaceAll | duino-boards/cores/arduino/WString.cpp:643-684 | All branches together, for every find and replace: the left-to-right replacement, by the growing branch when the words are separated, and the right-to-left one otherwise; unchanged when no room is granted; always within the buffer unless a proper suffix of find begins a longer replace |
| BootSpec.EverySessionVerifies | duino-boards/bootloaders/optiboot/optiboot.c:927-965 | After any sequence of LOAD_ADDRESS and PROG_PAGE, reading any programmed page gives the bytes the host last sent for it, although page 0 is stored patched |
| BootSpec.EverySessionStores | duino-boards/bootloaders/optiboot/optiboot.c:577-650 | After any such sequence every programmed page but page 0 lies in flash exactly as last sent |
| BootSpec.EverySessionBoots | duino-boards/bootloaders/optiboot/optiboot.c:843-858 | After any such session that programmed page 0, the jump in the save vector reaches the entry of the application the host sent, on large parts if and only if its slot held the same opcode as the reset vector, and no other byte of the page has changed |
| BootSpec.StepHolds | duino-boards/bootloaders/optiboot/optiboot.c:577-650 | Each command keeps the relation between flash, the saved vector bytes and the image sent |
| BootSpec.RelocatedReachesSame | duino-boards/bootloaders/optiboot/optiboot.c:637-641 | For every 12-bit displacement the relocated rjmp at the save vector reaches the same word, modulo 4096, as the application's rjmp at reset |
| BootSpec.SmallPage | duino-boards/bootloaders/optiboot/optiboot.c:625-646 | Parts up to 8 KB: both vectors hold an rjmp, the save vector's reaches the application's entry, and the reset vector's reaches one word past main, because its displacement is main itself |
| BootSpec.LargePage | duino-boards/bootloaders/optiboot/optiboot.c:600-619 | Larger parts: the reset vector jumps to main, and the save vector holds the application's reset instruction exactly when its slot held the same opcode |
| BootSpec.VectorCheckIff | duino-boards/bootloaders/optiboot/optiboot.c:421-423 | Of all configurations the compile-time check accepts, those with the save vector in page 0 are exactly those in which every session programming page 0 and the save vector's page reads back as sent |
| BootSpec.VectorCheckTooWeak | duino-boards/bootloaders/optiboot/optiboot.c:421-423 | The check accepts a configuration in which such a session does not read back as sent |
| Optiboot.Optiboot.ProgPage | duino-boards/bootloaders/optiboot/optiboot.c:577-650 | Receiving, patching in the buffer and writing the page is exactly the specified step |
| Optiboot.Optiboot.WriteBuffer | duino-boards/bootloaders/optiboot/optiboot.c:863-925 | Erase, word-by-word filling of the page buffer and page write replace exactly the addressed page by the buffer |
| Optiboot.Optiboot.ReadPage | duino-boards/bootloaders/optiboot/optiboot.c:927-965 | Sends, for each address in turn, the saved byte at the four vector bytes and the flash byte elsewhere |
| UsbSend.Endpoint.Send | duino-boards/cores/arduino/USBCore.cpp:259-327 | For every interleaving with start-of-frame flushes and host reads: it fails if and only if the endpoint is not configured or 250 polls found no space, never when the host keeps up; success appends exactly the data to the released packets and open bank, ending in a packet shorter than the endpoint size (section 5.8.3 of the USB 2.0 specification), released when that is asked for; failure has appended a prefix of it |
| UsbSend.Endpoint.FillBank | duino-boards/cores/arduino/USBCore.cpp:277-322 | One locked round appends its chunk, releases the bank exactly when it is full, forced at the end, or for a zero-length packet, and asks for a zero-length packet exactly when the data ended on a full packet |
| UsbSend.Endpoint.Poll | duino-boards/cores/arduino/USBCore.cpp:250-257 | Space is found at the latest when the host has taken every released packet; when it is reported, it is that of the bank as it was or of a fresh one, and the open bank has room for it when the locked round begins, whatever the interrupt did in between |
| UsbSend.Endpoint.StartOfFrame | duino-boards/cores/arduino/USBCore.cpp:757-759 | Releases exactly the open bank when it holds something, as one packet, and changes no byte of the stream |
| ServoSpec.InterruptKeepsInv | duino-boards/libraries/Servo/src/Servo.cpp:52-75 | One undelayed interrupt keeps at most one pin high, its pulse as long as the compare value says, and the compare value within 16 bits |
| ServoSpec.FirstInterrupt | duino-boards/libraries/Servo/src/Servo.cpp:124-140 | The first interrupt, a full turn of the counter after initISR and on a channel that was never started, leads into the invariant |
| ServoSpec.EveryRunPulses | duino-boards/libraries/Servo/src/Servo.cpp:52-75 | In every run from power-up without detaching, servos attached and rewritten at will: at most one pin is high, each pulse lasts exactly the ticks read at its start, each cycle at least the refresh interval, and the compare value never wraps |
| ServoSpec.EveryCycleServes | duino-boards/libraries/Servo/src/Servo.cpp:52-75 | Every cycle serves every channel: each active one gets exactly one pulse of the width set when it begins, in order and back to back, and the next cycle lasts the refresh interval or, if the channels took longer, 4 ticks more than they took |
| ServoSpec.TicksAre | duino-boards/libraries/Servo/src/Servo.cpp:275-294 | Two ticks a microsecond, less the trim of 2, within 544 to 2400 |
| ServoSpec.WidthOfAngle | duino-boards/libraries/Servo/src/Servo.cpp:264-273 | The angles from 0 to 180 divide the range from 544 to 2400 microseconds evenly |
| ServoSpec.WidthGrows | duino-boards/libraries/Servo/src/Servo.cpp:264-273 | Each degree more makes the pulse at least 10 microseconds longer |
| ServoSpec.WidthRoundTrip | duino-boards/libraries/Servo/src/Servo.cpp:275-309 | readMicroseconds returns the width written, clamped to the limits, and what is stored suits the scheduler |
| ServoSpec.AngleRoundTrip | duino-boards/libraries/Servo/src/Servo.cpp:264-299 | read returns every angle written, clamped to 0..180, through both integer divisions |
| Servo.ServoTimer.HandleInterrupts | duino-boards/libraries/Servo/src/Servo.cpp:52-75 | The handler over the registers and channel array is exactly the specified step, the first one after initISR included |
| Servo.ServoTimer.Read | duino-boards/libraries/Servo/src/Servo.cpp:296-309 | Reads back every angle from 0 to 180 that write stored |
| DnsSpec.RequestAsks | duino-boards/libraries/Ethernet/src/Dns.cpp:157-235 | A reader of section 3.1 of RFC 1035 finds exactly the name's labels in the request, then type A and class IN, if and only if every label has at most 63 bytes and the whole name at most 255 |
| DnsSpec.RequestHeader | duino-boards/libraries/Ethernet/src/Dns.cpp:176-196 | The request's header by section 4.1.1 of RFC 1035: the id high byte first, a standard query with recursion desired, one question and nothing else |
| DnsSpec.ReplyAccepted | duino-boards/libraries/Ethernet/src/Dns.cpp:270-289 | A well-formed reply that repeats the first two bytes of the request is read as the answer to it |
| DnsSpec.Refusals | duino-boards/libraries/Ethernet/src/Dns.cpp:262-297 | Exactly when a response is refused, and with which code: too short, another id or no response, truncated or in error, no answers; any other goes on to its answers |
| DnsSpec.FirstAddressIs | duino-boards/libraries/Ethernet/src/Dns.cpp:378-405 | The result is decided by the first answer of type 1 and class 1, or is -10 when there is none |
| DnsSpec.AnswerFields | duino-boards/libraries/Ethernet/src/Dns.cpp:362-376 | One answer by section 4.1.3, numbers high byte first, is read from behind its name |
| DnsSpec.OtherLengths | duino-boards/libraries/Ethernet/src/Dns.cpp:300-360 | Length bytes no encoding uses: any is a length in a question, any from 64 on a pointer in an answer |
| DnsSpec.LabelsOfDotted | duino-boards/libraries/Ethernet/src/Dns.cpp:199-221 | Cutting a name at its dots gives back the labels it was written from |
| DnsSpec.SkipsAnswerName | duino-boards/libraries/Ethernet/src/Dns.cpp:330-356 | The answer loop lands exactly after every name of section 4.1.4 of RFC 1035: labels, then a zero byte or a pointer |
| DnsSpec.QuestionNameIff | duino-boards/libraries/Ethernet/src/Dns.cpp:300-312 | Of all well-formed names the question loop lands exactly after the uncompressed ones and no others, whether the pointer comes first or after labels |
| DnsSpec.QuestionLoopEndsIff | duino-boards/libraries/Ethernet/src/Dns.cpp:300-312 | In any packet the question loop ends if and only if the packet holds the whole name, or not even its first byte and the uninitialised len is 0; otherwise len stays 255 for good |
| DnsSpec.AnswerLoopEnds | duino-boards/libraries/Ethernet/src/Dns.cpp:330-360 | The answer loop ends on every packet, because the 255 left over is taken for a pointer |
| DnsSpec.FindsFirstAddress | duino-boards/libraries/Ethernet/src/Dns.cpp:326-398 | The answer loop over any list of well-formed answers returns the first A/IN answer's address when its length is 4, an error when it is not, and another when there is none |
| DnsSpec.ResponseUnderstood | duino-boards/libraries/Ethernet/src/Dns.cpp:238-405 | On every well-formed accepted response with uncompressed questions, whatever follows the answers, the whole reading finds the first A/IN address |
| Dns.DNSClient.BuildRequest | duino-boards/libraries/Ethernet/src/Dns.cpp:157-235 | The loop over the NUL-terminated name writes exactly the specified request |
| Dns.DNSClient.Discard | duino-boards/libraries/Ethernet/src/Dns.cpp:307-312 | The loop on the 8-bit counter skips that many bytes and leaves 255, never 0, which the enclosing loop relies on |
| Dns.DNSClient.ProcessResponse | duino-boards/libraries/Ethernet/src/Dns.cpp:238-405 | Reading byte by byte gives the specified outcome, and finds a packet cut short exactly when the specification does; the address is stored exactly on success, and a packet from another server is refused |
| Timer0.PeriodStep | duino-boards/cores/arduino/wiring.c:36-63 | One more overflow period is whole milliseconds plus eighths with carry, exactly |
| Timer0.PeriodIs | duino-boards/cores/arduino/wiring.c:27-35 | The period behind millis is 256 ticks of micros, and right after the k-th overflow interrupt micros is k periods |
| Timer0.Clock0.Overflow | duino-boards/cores/arduino/wiring.c:45-63 | After k overflow interrupts millis is floor(k * period / 1000) modulo 2^32: no drift, ever |
| Timer0.MicrosExactIff | duino-boards/cores/arduino/wiring.c:79-104 | At 8 or 16 MHz, with at most one overflow pending and at most one tick before the flag is read, micros is the true time modulo 2^32 if and only if no overflow has been pending for 255 ticks |
| Timer0.Clock0.Micros | duino-boards/cores/arduino/wiring.c:79-104 | The 32-bit shifts and products lose nothing modulo 2^32 |
| Numbers.NumeralUnique | duino-boards/cores/arduino/Print.cpp:203-221 | Every number has exactly one numeral in each base |
| Numbers.CharsInjective | duino-boards/cores/arduino/Print.cpp:213-217 | In bases up to 36 different digit strings print differently |
| Numbers.DigitTable | duino-boards/cores/arduino/Print.cpp:217-217 | The 36 digits are 0 to 9 and A to Z |
| Print.PrintNumber | duino-boards/cores/arduino/Print.cpp:203-221 | The 33-byte buffer is never underrun; what is sent is the bytes of the number's numeral up to the first NUL, with 10 standing in for bases below 2, and up to base 128 that is the numeral |
| Print.SentIsNumeralIff | duino-boards/cores/arduino/Print.cpp:213-220 | With char signed, stored bytes cut to 8 bits and writing stopped by a NUL, the numeral is sent if and only if every digit is below 128 |
| Print.BaseIff | duino-boards/cores/arduino/Print.cpp:203-221 | So every number is sent as its numeral if and only if the base is at most 128 |
| Print.DigitByteIs | duino-boards/cores/arduino/Print.cpp:214-217 | The byte stored for each digit below 256, those from 128 on included |
| Print.LargeBaseExamples | duino-boards/cores/arduino/Print.cpp:213-220 | Concrete inputs: 150 in base 200 goes out as the byte 198, 208 in base 255 not at all |
| Print.PrintLong | duino-boards/cores/arduino/Print.cpp:87-101 | Base 0 writes one raw byte, base 10 the sign and magnitude of every 32-bit number, the least included, every other base, cut to 8 bits, what printNumber sends of its two's complement: the numeral for bases up to 128 |
| Parse.RoundTrip | duino-boards/cores/arduino/Stream.cpp:130-156 | What print(n, 10) writes, followed by the end of input or a character that is neither digit nor ignored, is read back as n for every 32-bit n, consuming exactly that, in every lookahead mode; the ignored character may be anything but a digit or minus sign; parseInt then returns if and only if something follows or the ignored character is not 255 |
| Parse.StopsIff | duino-boards/cores/arduino/Stream.cpp:145-151 | parseInt's loop ends if and only if some later character, or the time-out, is one it does not take: always, unless the ignored character is 255 and the number ends the stream |
| Parse.SkippedIs | duino-boards/cores/arduino/Stream.cpp:56-82 | What the modes discard: nothing, everything up to a digit or minus sign, or blanks, tabs and line ends only |
| Parse.ReadsGrouped | duino-boards/cores/arduino/Stream.cpp:130-156 | A number printed in base 10 reads back even with ignored characters strewn in after its first character |
| StreamSearch.Stream.PeekNextDigit | duino-boards/cores/arduino/Stream.cpp:56-82 | Discards exactly what the lookahead mode allows and peeks at a digit or minus sign, or reports -1 |
| Baud.SettingsAgreeIff | duino-boards/bootloaders/optiboot/optiboot.c:291-291 | The core's nested divisions, in unsigned long and cut to 16 bits, give the rounded setting modulo 65536, so the two agree if and only if that fits 16 bits, for every clock and baud rate with F/4/b at least 1, and likewise without double speed |
| Baud.SettingIsNearestIff | duino-boards/cores/arduino/HardwareSerial.cpp:103-122 | The core's setting is F/(8b)-1 rounded to the nearest integer if and only if that fits 16 bits |
| Baud.CutExample | duino-boards/cores/arduino/HardwareSerial.cpp:106-106 | Concrete input: 16 MHz and 10 baud give 3391 instead of 199999, below the limit that turns double speed off |
| Baud.Begin | duino-boards/cores/arduino/HardwareSerial.cpp:103-122 | Double speed is kept exactly when the cut setting is at most 4095 and the pair is not 16 MHz with 57600 baud; in either mode the setting is the nearest if and only if it fits |
| StreamSearch.Stream.ParseInt | duino-boards/cores/arduino/Stream.cpp:130-156 | The loop with 32-bit wrap-around consumes and returns exactly what the number's text denotes, and ends exactly as StopsIff says |

## Left out

- HardwareSerial.HardwareSerial.TxUdrEmptyIrq: the UART is taken not to finish a byte inside the handler; `SerialLine.HandlerClearsInTimeIff` says exactly what happens when it does. Interrupts do not nest.
- HardwareSerial.HardwareSerial.Flush: called when all is well; the wait ends only under a UART that keeps moving.
- Serial end, register set-up and frame formats.
- Allocator.Allocator.Realloc: on an unsafe request the model stops before the first store that breaks the heap, since nothing holds of the bytes afterwards.
- Allocator.Allocator.Free: double free and foreign pointers are misuse and excluded.
- Allocator.Allocator.Malloc: the heap starts at address 2 or above and RAM is at most 64 KB; the stack limit is a parameter of each call.
- WString.WString.ReplaceAll: `find` and `replace` are values without NUL, so no aliasing with the string itself; String sizes are not cut to 16 bits; where the source would write past its buffer the model stops.
- WString.WString.ChangeBuffer: the allocator's answer is a parameter; String operations other than replace, lastIndexOf and reserve would add only easy members.
- StreamSearch.Stream.FindMulti: the stream is a finite sequence and a time-out is its end; delays are not modelled.
- StreamSearch.Stream.ParseInt: where the loop never ends the model leaves it; parseFloat and floating-point printing are left out.
- BootSpec.EverySessionVerifies: full, page-aligned pages of flash up to 64 KB; EEPROM, RAMPZ, the STK500 framing bytes and the watchdog are left out.
- Optiboot.Optiboot.ReadPage: reads stay inside flash; the command's other memory types are left out.
- UsbSend.Endpoint.Send: one bulk endpoint with two banks; suspend, wake-up, control transfers and the length of time-outs are left out.
- UsbSend.Endpoint.StartOfFrame: a bank the host has still to read counts as empty for the flush, so the flush's byte count is never asked about a busy bank.
- ServoSpec.EveryRunPulses: interrupts are not delayed, the clock is 16 MHz, the limits are the defaults, and no servo is detached.
- Dns.DNSClient.ProcessResponse: where a packet has nothing more to give the model stops, since the source then goes on with bytes it did not receive, or for good (`DnsSpec.QuestionLoopEndsIff`); waiting for the packet, retries and sockets are left out.
- Timer0.MicrosExactIff: at most one overflow is pending; more would be lost by the hardware flag itself.
- Timer0.PeriodStep: clocks other than 8 and 16 MHz.
- The duplicates of the core under cores/MightyCore, pin tables, PWM, tone, external interrupts, Ethernet drivers, DHCP, SD, Wire, HID and the Caterina boot loader.
