# CertiCore in Dafny

A Dafny model of the verified core of CertiCore, a uCore kernel for RISC-V, and of the
small research models that live beside it. `dafny verify dfyconfig.toml` checks the whole
project.

* **Page allocator** (`Bits`, `Words`, `Counting`, `PageSpec`, `Conservation`, `FirstFit`,
  `Algebra`, `Unwinding`, `Ledger`, `Layout`, `BootSpec`, `SelfCheck`, `Pmm`). An in-place
  array of 64-bit flag words and a wrapping free counter, for every number of pages `NPAGE`
  with `0 < NPAGE <= NULLPAGE` (with a larger one `NULLPAGE` would be a page number). The
  boot path is modelled for every `NPAGE` below 0x80000, beyond which the `int` product in
  `KMEMSIZE` overflows; from 0x7FE00 up the `unsigned int` end of memory wraps, and
  `BootSpec.WrappedEndIsLow` shows that then nothing is freed and the boot check fails. The
  class `PageAllocator` runs the C code; `PageSpec` is the functional specification of
  `verif/llvm-spec.rkt`. Each method is proved equal to it, and the properties are proved
  about it: first fit, a sharp fragmentation bound, when the counter is kept, a ledger over
  whole runs, noninterference over runs, and the boot path with its self check.
* **Formatter and parser** (`Arithmetic`, `Strings`, `Format`, `Composition`, `Printfmt`,
  `RoundTrip`, `KernelFormats`, `Numerals`, `BufferRoundTrip`, `Memmove`).
  `Format.Output` says what a format prints, without rewinding; the state machine in
  `Printfmt` is proved to emit exactly that into a bounded buffer, for every format and
  argument list on which the C code is defined. A precondition `Output(...).Some?` is that
  definedness: enough arguments, string pointers that point to strings, no negation of the
  least integer, and no width, precision or `l` count that leaves the range of `int` while it
  is read or counted down. `Composition` proves that formats compose: each escape takes
  exactly the arguments that the text of the format says it takes. `RoundTrip` proves exactly
  which printed numbers strtol reads back, and `BufferRoundTrip` the same through a buffer
  that may cut the text off and is read up to its terminator. `KernelFormats` covers the other
  conversions, `Numerals` the numerals that strtol accepts and the printer never produces.
* **Trap entry and exit** (`TrapSpec`, `TrapEntry`): the context switch, instruction by
  instruction, what the handler is handed, and traps nested to any depth.
* **Ownership transfer** (`Ownership`): the noninterference model of files with owners.
* **Bit extraction** (`Bext`): the properties are proved on sequences of bits of any width,
  and the loop with the C shifts and masks on 32-bit words is proved to compute the same, and
  on the values of the words to pack the bits that the mask selects.

A kernel panic and a failed assertion are modelled as a method returning `ok == false`.

Where the code and its own comments differ, the model follows the code:

* `libs/printfmt.c:124` calls `-` a flag to pad on the right, but for numbers it pads with
  `-` characters on the left; `RoundTrip.PrintThenParse` shows what that costs.
* `libs/printfmt.c:7-9` says padding is for numeric formats only; `%s` pads too.
* `libs/string.c:199` promises a `0X` prefix; only `0x` is recognised, as
  `RoundTrip.HexPrefixIff` states.
* `print_regs` (kern/trap/trap.c:68-101) prints 64-bit registers with `%08x`, without `l`, so
  only their lower halves, as `KernelFormats.RegisterLine` states.
* `page_init` panics when the kernel image ends inside the last managed page, because
  `pa2page` rejects the end of memory; `PageInit` says exactly when.

## Model

| member | source | states |
|---|---|---|
| PageSpec.FindIsFirstFit | verif/llvm-spec.rkt:158-174 | the accumulator recursion finds the least start of n consecutive available pages, and fails exactly when there is none |
| FirstFit.AllocIsFirstFit | kern/mm/default_pmm.c:54-84 | alloc_pages(n) returns the least start of n available pages, NULLPAGE exactly when none exists |
| FirstFit.FirstFitUnique | kern/mm/default_pmm.c:59-73 | first fit determines the result |
| FirstFit.AllocLocal | kern/mm/default_pmm.c:64-73 | the result depends only on which pages below the end of the returned block are available |
| FirstFit.SmallerRequestSucceedsEarlier | kern/mm/default_pmm.c:64-73 | in the same state a smaller request succeeds, at an index no larger |
| FirstFit.NoRunBound | kern/mm/default_pmm.c:64-73 | without n pages in a row, each unavailable page closes at most n-1 available ones |
| FirstFit.FragmentationBound | kern/mm/default_pmm.c:54-84 | a request must succeed when nr_free > (n-1)*(NPAGE-nr_free+1) and must fail when n > nr_free |
| FirstFit.FragmentationBoundIsSharp | kern/mm/default_pmm.c:54-84 | at equality some state refuses, for every n and every number of unavailable pages |
| Conservation.AcceptedIff | kern/mm/default_pmm.c:22-41 | in unbounded arithmetic, which arguments init_memmap and free_pages accept |
| Conservation.StatusCodes | kern/mm/default_pmm.c:22-44 | in unbounded arithmetic, exactly when init_memmap returns each of the codes 1 to 6 |
| Conservation.InitCounts | kern/mm/default_pmm.c:46-51 | an accepted init_memmap makes exactly its n pages available |
| Conservation.AllocCounts | kern/mm/default_pmm.c:74-83 | a successful allocation takes an available block and exactly n pages from the available ones |
| Conservation.FreeCounts | kern/mm/default_pmm.c:96-99 | an accepted free makes at most n pages available, and n exactly when all were allocated and unreserved |
| Conservation.InitAndAllocKeepCounter | verif/llvm-spec.rkt:250-264 | nr_free equal to the number of available pages is kept by init_memmap and alloc_pages on every input |
| Conservation.FreeKeepsCounterIff | kern/mm/default_pmm.c:86-100 | an accepted free keeps the counter right if and only if every page of the block was allocated and unreserved |
| Algebra.AllocThenFree | kern/mm/default_pmm.c:54-100 | allocating and freeing the same block restores every flag word and nr_free |
| Algebra.FreesCommute | kern/mm/default_pmm.c:86-100 | any two frees commute |
| Algebra.FreeSplits | kern/mm/default_pmm.c:86-100 | one accepted free of a+b pages equals two adjacent frees |
| Algebra.FreeThenAlloc | kern/mm/default_pmm.c:54-100 | after a block of unreserved pages is freed, a request of its size succeeds at an index no larger |
| Unwinding.FreeWeakStep | verif/llvm-ni.rkt:53-80 | weak step consistency of free_pages, from page u alone |
| Unwinding.InitWeakStep | verif/llvm-ni.rkt:53-80 | weak step consistency of init_memmap, whose verification the repository left out, with equal status codes |
| Unwinding.AllocWeakStep | kern/mm/default_pmm.c:54-84 | what alloc_pages does to page u depends on u and on the availability of pages below u+n only |
| Unwinding.LocalRespect | verif/llvm-ni.rkt:126-142 | a free or init whose range omits page u leaves it alone |
| Unwinding.PurgedRunAgrees | verif/llvm-ni.rkt:53-146 | noninterference over runs of init and free: deleting the calls that omit a set of pages does not change those pages, if the in-bounds inits that meet the set stay inside it |
| Unwinding.PurgedFreesKeepPage | verif/llvm-ni.rkt:126-146 | for runs of frees this holds for every single page |
| Unwinding.SafeCallIff | verif/llvm-ni.rkt:53-80 | a call keeps every two states that agree on a set of pages in agreement if and only if it is no in-bounds init that meets the set and leaves it |
| Unwinding.SafeInRunsIff | verif/llvm-ni.rkt:53-146 | and exactly such calls may be added to runs of confined calls without breaking noninterference |
| Unwinding.StraddlingInitInterferes | verif/llvm-ni.rkt:162 | every in-bounds init that touches a page of the set and one outside it interferes: a preceding init of the outside page, which the purged run omits, changes the inside page |
| Ledger.StepKeeps | kern/mm/default_pmm.c:20-100 | every operation keeps the ledger invariant |
| Ledger.EveryRunIsSafe | kern/mm/default_pmm.c:20-100 | over every run from boot the outstanding blocks are in range, disjoint and unreserved, the allocated pages are exactly their union, and nr_free plus their sizes is the number of unreserved pages |
| Ledger.EveryRunAfterPmmInitIsSafe | kern/mm/pmm.c:124-137 | the same for every run that starts where pmm_init ends |
| Layout.RoundUpIsLeast | libs/defs.h:58-67 | ROUNDUP gives the least multiple of any n not below its argument if and only if the sum inside it does not wrap |
| Layout.PageOfAddressOf | kern/mm/pmm.h:83-96 | pa2page undoes page2pa on managed pages, without panic or wrap-around |
| Layout.AddressOfPageOf | kern/mm/pmm.h:83-96 | page2pa undoes pa2page on page-aligned managed addresses |
| Layout.PaddrRange | kern/mm/pmm.h:54-61 | PADDR of kernel addresses does not wrap and lands above the kernel's load address |
| BootSpec.WrappedEndIsLow | kern/mm/memlayout.h:15-25 | when the unsigned int end of memory wraps it lies below the kernel, and nothing is free after boot |
| BootSpec.FreeFromFirst | kern/mm/pmm.c:106-115 | the pages whose address is at or above the image's end are those from the first boundary on |
| BootSpec.BootFlagReads | kern/mm/pmm.c:100-115 | after boot no page is allocated; a page is unreserved exactly when its address is at or above the image's end, or never when the end of memory wrapped |
| BootSpec.BootStateServes | kern/mm/pmm.c:113-115 | after boot the counter is right and n pages can be had exactly when n are free |
| BootSpec.InitAllAbove | kern/mm/pmm.c:113-115 | the init_memmap call of page_init returns 0 and frees exactly the pages above the image |
| BootSpec.LastPagePanics | kern/mm/pmm.h:91-96 | pa2page rejects the first free boundary exactly when it is not below the end of memory |
| BootSpec.EndsInLastPageIff | kern/mm/pmm.c:106-114 | the image ends in the last page exactly when it ends strictly between that page's start and the end of memory |
| BootSpec.SomeImageEndsInLastPage | kern/mm/pmm.c:106-114 | an image that ends one byte before the end of memory does, and page_init panics on it |
| BootSpec.StrayFreeAfterBoot | kern/mm/default_pmm.c:86-100 | right after boot an accepted free of a page nobody allocated makes the counter wrong |
| SelfCheck.SingleSucceedsIff | kern/mm/default_pmm.c:113-115 | a single page can be had exactly when one is available |
| SelfCheck.ThreeSingles | kern/mm/default_pmm.c:109-126 | three single pages succeed exactly when three are available, differ, and freeing them first to last restores the state |
| Bits.SetBitReads | libs/atomic.h:53-59 | of bits 0 and 1, setting one leaves the other |
| Bits.ClearBitReads | libs/atomic.h:66-72 | of bits 0 and 1, clearing one leaves the other |
| Pmm.PageAllocator.InitMemmap | kern/mm/default_pmm.c:20-52 | the C loops return the specified status code, one of 0 to 6, and reach the specified state |
| Pmm.PageAllocator.AllocPages | kern/mm/default_pmm.c:54-84 | the scan by start index refines the recursion by run length: same result, flag words and counter |
| Pmm.PageAllocator.FreePages | kern/mm/default_pmm.c:86-100 | the C loop reaches the specified state |
| Pmm.PageAllocator.CountPages | kern/mm/default_pmm.c:132-139 | the loops count unreserved and available pages |
| Pmm.PageAllocator.BasicCheck | kern/mm/default_pmm.c:109-126 | fails no assertion exactly when three pages are available, and then restores everything |
| Pmm.PageAllocator.DefaultCheck | kern/mm/default_pmm.c:130-159 | fails no assertion exactly when the counter is right and five pages in a row are available, and then restores every flag word and nr_free |
| Pmm.PageAllocator.ReserveAll | kern/mm/pmm.c:100-104 | every page starts reserved and unallocated |
| Pmm.PageAllocator.PageInit | kern/mm/pmm.c:86-121 | panics exactly when the image ends below KERNBASE or inside the last page; otherwise pages at or above its end are free, the others reserved, and nr_free grows by their number |
| Pmm.PageAllocator.PmmInit | kern/mm/pmm.c:124-137 | the boot sequence succeeds exactly when five pages are free above the image, and leaves exactly those available |
| Strings.StrLen | libs/string.c:11-18 | the distance to the first terminator in memory |
| Strings.StrNLen | libs/string.c:34-40 | the length, at most len, never reading past the terminator |
| Strings.DigitsEnd | libs/string.c:233-253 | the digits that strtol consumes are digits of the base and a maximal stretch |
| Strings.SkipPrefix | libs/string.c:208-230 | blanks, sign and base prefix are read as the reading says |
| Strings.ScanDigits | libs/string.c:233-253 | the digit loop stops at the end of the digits with their value, and no intermediate value overflows when the last does not |
| Strings.StrToL | libs/string.c:204-259 | result and endptr are those of the reading |
| Strings.ValueMonotone | libs/string.c:251 | prefixes of the digits denote no larger numbers |
| Numerals.BlanksAndSign | libs/string.c:208-219 | blanks and tabs are skipped, '+' changes nothing and '-' only the sign of what the rest reads as |
| Numerals.BaseZero | libs/string.c:221-230 | base 0 reads a number in base 16, 8 or 10, as its prefix says |
| Numerals.CapitalsDenote | libs/string.c:241-243 | capital letters are the same digits as small ones |
| Memmove.MemMove | libs/string.c:293-311 | for every overlap the destination ends as the original source bytes and nothing else changes |
| Memmove.MoveDown | libs/string.c:299-303 | the backward branch is right when the source starts below the destination |
| Memmove.MoveUp | libs/string.c:304-308 | the forward branch is right when the destination starts at or below the source, or past its end |
| Format.ParseEscape | libs/printfmt.c:116-167 | an escape ends within the format, holds no further '%', and keeps width, precision and l count in the range of int |
| Format.NumTextStep | libs/printfmt.c:36-51 | how a padded number is built digit by digit from a width that counts down |
| Format.StringTextParts | libs/printfmt.c:188-207 | the padding of %s on either side of its characters |
| Format.FieldLength | libs/printfmt.c:36-51 | a width is a minimum for numbers and strings, a precision a maximum for strings |
| Format.WordDigits | libs/printfmt.c:36-51 | a 64-bit number has at most 64 digits in any base, so no width but one near INT_MIN is counted out of range |
| Format.PlainText | libs/printfmt.c:109-114 | text without '%' prints as it stands |
| Format.UnknownEscape | libs/printfmt.c:254-258 | printing the '%' and going back to just after it prints an unknown escape literally |
| Format.UnknownEscapesPrintThemselves | libs/printfmt.c:254-258 | a format whose every '%' opens an unknown escape, one cut off by the terminator included, prints character for character |
| Format.NamedError | libs/printfmt.c:182-184 | the nested format of %e for known codes prints the message |
| Format.NumberedError | libs/printfmt.c:179-181 | the nested format of %e for other codes prints "error" and the code |
| Composition.ParseBefore | libs/printfmt.c:116-167 | an escape that ends inside a format parses the same with more text and arguments behind it, and takes one argument for each `*` |
| Composition.ParseBehind | libs/printfmt.c:116-167 | an escape parses the same behind any other text |
| Composition.OutputComposes | libs/printfmt.c:101-261 | if no escape of f1 is cut off by its end and a1 has one argument for each of its c, e, s, d, u, o, p, x and `*`, then f1 f2 on a1 a2 prints what f1 prints on a1 and then what f2 prints on a2 |
| KernelFormats.TwoStrings | kern/debug/kmonitor.c:108 | two strings with text between them print each in its place |
| KernelFormats.RegisterLine | kern/trap/trap.c:68-101 | a line with 0x%08x shows ten characters that read back as the register modulo 2^32, so as the register if and only if its upper half is zero |
| KernelFormats.CharPrints | libs/printfmt.c:168-171 | %c prints its argument modulo 256 |
| KernelFormats.PercentPrints | libs/printfmt.c:248-251 | %% prints one '%' and leaves the arguments to what follows |
| KernelFormats.NullString | libs/printfmt.c:189-191 | %s of a null pointer prints (null) |
| KernelFormats.AlternateHides | libs/printfmt.c:198-204 | %#s prints a string with '?' for exactly the characters outside ' ' to '~' |
| KernelFormats.PrecisionFromArgument | libs/printfmt.c:145-161 | %.*s prints at most as many characters as its first argument says |
| KernelFormats.WidthFromArgument | libs/printfmt.c:145-161 | %*d prints what the same width written in the format prints |
| Printfmt.SprintBuf.Putch | libs/printfmt.c:276-281 | the bounded sink keeps a prefix of what was emitted, counts all of it and writes nowhere else |
| Printfmt.SprintBuf.PrintNum | libs/printfmt.c:36-51 | emits the digits of the number padded on the left to the width |
| Printfmt.SprintBuf.PutString | libs/printfmt.c:188-208 | emits the string cut to the precision and padded to the width |
| Printfmt.SprintBuf.PrintError | libs/printfmt.c:174-185 | emits the error message through the nested formatter call |
| Printfmt.ScanNumber | libs/printfmt.c:135-142 | the digit loop reads the maximal decimal number without leaving the range of int, when its last sum stays inside |
| Printfmt.ScanEscape | libs/printfmt.c:116-167 | the reswitch loop ends at the conversion character with the flags and arguments of the reference parse |
| Printfmt.Rewind | libs/printfmt.c:254-258 | the rewind stops exactly after the '%' that opened the escape |
| Printfmt.SprintBuf.VPrintFmt | libs/printfmt.c:101-261 | terminates, never reads past the terminator, and emits exactly the reference output, of which the rows of Format, Composition, RoundTrip and KernelFormats say what it is |
| Printfmt.SprintBuf.Terminate | libs/printfmt.c:321-322 | the terminator stands right after the characters that fit, and nothing else is written |
| Printfmt.VSnPrintf | libs/printfmt.c:313-324 | with k the lesser of the output's length and size-1: the buffer holds the first k characters of the output, then '\0', every other index of memory is unchanged, and the result is the full length; -E_INVAL for a null pointer or size 0 |
| RoundTrip.DigitsDenote | libs/printfmt.c:36-51 | the printed digits are digits of the base, denote the number, and start with 0 only for zero |
| RoundTrip.DigitsAreSmall | libs/printfmt.c:50 | every printed letter is a small one |
| RoundTrip.ReadsNumber | libs/string.c:204-259 | blanks, sign and digits to the end of the text read as the signed number, with endptr at the end |
| RoundTrip.HexPrefixIff | libs/string.c:222-224 | digits after 0x or 0X read to the end if and only if the x is small; after 0X the result is 0 with endptr 1 |
| RoundTrip.NumberFormatParses | libs/printfmt.c:116-167 | the escape parser reads back a width that was itself printed |
| RoundTrip.TextReadsBack | libs/printfmt.c:210-246 | printed text reads back whenever the padding is harmless |
| RoundTrip.TextDoesNotReadBack | libs/printfmt.c:210-246 | and never otherwise |
| RoundTrip.PrintThenParse | libs/printfmt.c:210-246 | printing v with %ld for -2^63 < v < 2^63, or with %lu, %lx or %lo for 0 <= v < 2^63, with any flag and any width that an int holds, then strtol in that base, gives v back with endptr at the end if and only if there is no padding, or zeros, or blanks without a sign, or one '-' before zero |
| RoundTrip.PrintThenParseInt | libs/printfmt.c:59-74 | without l, an int printed with %d or an unsigned int printed with %u, %x or %o reads back under the same condition, whatever the upper half of its argument slot holds |
| RoundTrip.PrintThenParsePointer | libs/printfmt.c:233-246 | %p of a value below 2^63, with any flag and width, reads back in base 16 if and only if there is no padding or it is zeros |
| BufferRoundTrip.CutNumberIsSmall | libs/string.c:233-253 | no part of a printed number overflows when strtol reads it |
| BufferRoundTrip.ParseBuffer | libs/string.c:204-259 | strtol of memory reads the string up to the first terminator |
| BufferRoundTrip.PrintAndParse | libs/printfmt.c:290-324 | snprintf into a buffer and strtol of the memory from its start up to the first '\0' give the number and the text's length back if and only if the buffer is larger than the text and the padding is harmless |
| TrapEntry.Hart.SaveAll | kern/trap/trapentry.S:3-55 | the stores of SAVE_ALL, one by one, build the trap frame below the stack pointer |
| TrapEntry.Hart.AllTraps | kern/trap/trapentry.S:101-105 | trap is entered with a0 = sp = the old sp - 288, pointing at x0..x31, sstatus, sepc, sbadaddr and scause of the interrupted state in the order of struct trapframe; no other memory changes and sscratch is 0 |
| TrapEntry.Hart.TrapRet | kern/trap/trapentry.S:57-98 | the loads of RESTORE_ALL, one by one, bring back every register and two CSRs from the frame |
| TrapEntry.FrameIsComplete | kern/trap/trapentry.S:11-54 | the register stores and the CSR stores together make the whole frame |
| TrapSpec.HandlerReceivesFrame | kern/trap/trap.h:6-49 | the argument of trap is such a struct trapframe, and the registers that SAVE_ALL does not use as temporaries are untouched |
| TrapSpec.KeptFrameRestores | kern/trap/trapentry.S:57-98 | RESTORE_ALL from a frame that is still there gives back x0..x31, sstatus and sepc |
| TrapSpec.ReturnRestores | kern/trap/trapentry.S:109-113 | if the handler kept its frame and sp, return gives back x0..x31, sstatus and sepc |
| TrapSpec.RunKeepsStack | kern/trap/trapentry.S:102-113 | a handler with all traps nested in it keeps the stack from its frame up |
| TrapSpec.EveryTrapRestores | kern/trap/trapentry.S:102-113 | under arbitrary nesting every trap, at every depth, is restored |
| Ownership.OutputConsistent | racket/ni/sfscq.rkt:47-48 | outputs depend only on the actor's view, for read and chown |
| Ownership.ReadsRevealView | racket/ni/sfscq.rkt:30-37 | an owner reads exactly its file's contents and everyone else 0, so under equal permissions two states give a user the same reads if and only if its views agree |
| Ownership.TransferMovesContents | racket/ni/sfscq.rkt:40-44 | after a permitted chown exactly the new owner reads the contents; without permission, and for other files, nobody reads anything else |
| Ownership.StepConsistentIff | racket/ni/sfscq.rkt:51-55 | exactly when a step keeps a user's view: unless a permitted chown hands that user a file whose contents differ |
| Ownership.WeakStepAndRespect | racket/ni/sfscq.rkt:57-67 | weak step consistency and step respect under the intransitive policy |
| Ownership.SafeActionIff | racket/ni/sfscq.rkt:40-45 | an action keeps all group-equivalent states equivalent if and only if it is no chown into the group from outside |
| Ownership.TraceNoninterference | racket/ni/sfscq.rkt:24-67 | without such chowns, any trace keeps states equivalent to the group and gives it equal outputs |
| Ownership.TracesTellViewsApart | racket/ni/sfscq.rkt:24-67 | conversely, under equal permissions, states that no such trace tells apart are equivalent to the group |
| Bext.Bext | racket/test/bext.c:7-17 | the loop computes the extraction at every width |
| Bext.SetBitSets | racket/test/bext.c:13 | on 32-bit words, or-ing in 1 << j sets bit j and no other |
| Bext.BitsWeigh | racket/test/bext.c:11-13 | bit k of a 32-bit word weighs 2^k |
| Bext.ExtractIsGather | racket/test/bext.c:7-17 | extraction on bits is, on the numbers they stand for, packing lowest bit first |
| Bext.GatherField | racket/test/bext.c:7-17 | on numbers, a mask of n ones above p zeros cuts out (x / 2^p) mod 2^n |
| Bext.BextWord | racket/test/bext.c:7-17 | the loop with the C operators on 32-bit words computes the extraction of their bits; on the words' values it packs the bits the mask selects, and a mask of n ones above p zeros gives (rs1 / 2^p) mod 2^n |
| Bext.SelectRank | racket/test/bext.c:11-15 | the j-th set bit of the mask and the number of set bits below it determine each other |
| Bext.ExtractEqualIff | racket/test/bext.c:7-17 | equal results under a mask if and only if the masked bits agree |
| Bext.DepositExtract | racket/test/bext.c:7-17 | scattering the result back gives the masked word |
| Bext.ExtractDeposit | racket/test/bext.c:7-17 | bits from the population count up are zero, and every packed value can be produced |

## Left out

- Console, SBI, clock, CSR access and interrupt masking around the allocator calls: hardware; putch appends to a sequence.
- The debug monitor and panic output, and the trap dispatch of kern/trap/trap.c: printing and one-branch facts.
- The effect of sret itself, the return address that `jal trap` writes, and traps taken outside the handler body (inside SAVE_ALL or RESTORE_ALL): the handler starts with whatever its own work makes of the registers.
- The atomic AMO forms of libs/atomic.h: the plain-C forms are modelled, for bits 0 and 1.
- The character count of the sink is an unbounded integer: VSnPrintf requires the output to be shorter than 2^31, so that it never leaves the range of int.
- Formats and arguments whose width, precision or `l` count overflows an int have no reference output: the C code is undefined on them, or truncates a size_t to an int.
- NPAGE of 0x80000 or more on the boot path: the macro arithmetic overflows an int.
- Overflow in strtol: StrToL requires a magnitude of at most 2^63 - 1.
- printnum with base 1, which its comment admits and which does not terminate: bases 2 to 16.
- The other string functions (strcpy, strcmp, memset and so on), libs/list.h and libs/readline.c: they would add easy members only.
- The Serval, Rosette and LLVM tooling and the other tests under racket/test: finite vectors and tool glue.
- Registers of the Racket specification state: only flags, counter and result matter to the allocator.
