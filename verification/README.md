# Models of the tcc runtime library

This project models the parts of the Tiny C Compiler's repository that do intricate work by
themselves, and proves what they compute:

- **Quad arithmetic** (`Rounding`, `Sticky`, `Quad*.dfy`): IEEE 754-2008 binary128 addition,
  subtraction, multiplication, division, comparison and conversion on pairs of 64-bit words
  (`lib/lib-arm64.c`). A number's value is an exact real. `Rounding.IsNearestEven` says, over all
  encodings of a format, that one is nearest to a real and even in a tie; `QuadFormat.IsSum`,
  `IsProduct` and `IsQuotient` say what each operation owes, special cases included. The proofs go
  from words to naturals, and from naturals to reals by one idea: a significand whose lost bits are
  folded into its lowest bit ("odd rounding", `Sticky.StickyAt`) rounds as the real it stands for.
- **The bounds checker's table** (`Regions`, `Zones`, `Worlds`, `Startup`, `Lifetimes`,
  `BoundsTable`): the two-level page
  table of `lib/bcheck.c` in its 32-bit layout, with pages shared until written and a list per
  256-byte granule, against a plain set of disjoint intervals (the ghost field `live`) and of invalid
  zones (`zones`). List nodes have addresses of their own; `owner` and `freed` account for each.
- **Division and conversion of long integers** (`Division64`, `ArmDivision`, `LongConversion`,
  `LongFloat`): `lib/libtcc1.c` and `lib/armeabi.c`.
- **A backtracking search** (`Search`): `examples/ex2.c`.
- **Compare-and-swap loops** (`Interlocked`): the 64-bit interlocked operations of the Windows
  header, as a state machine over the steps of any number of threads. A plain read is one step or
  two half reads, in either order.
- **The variadic cursor** (`VaList`, `VaPassing`): `lib/va_list.c`, against the way arguments are passed.

`Power2`, `Words` and `Words32` hold powers of two and unsigned machine words: naturals below 2^64
or 2^32 with wrapping arithmetic, shifts as multiplication and division, and bitwise operations by
recursion over the bits. `dafny verify dfyconfig.toml` checks everything.

Assumptions that the sources make, stated as preconditions: a created region has a non-zero start, does
not wrap around and keeps one byte apart from the live ones (`lib/bcheck.c:786-788`); divisors are not
zero; shift amounts are below 64; at most 20 numbers are searched; stack arguments do not reach the
end of memory and alignments are powers of two.

Where the code falls short of its purpose, the model keeps the code and gives the exact condition:
`__extendsftf2` and `__extenddftf2` misread exactly the subnormals (`ExtendSingle`, `ExtendDouble`);
`mark_invalid` marks its range exactly if `Markable` holds (`MarksRangeIffMarkable`), and so
`__bound_init` leaves the invalid pointer valid if the malloc zone ends in the last page
(`InvalidPointerIff`), and marks its two zones exactly if `GoodBreak` holds (`FlagsZonesIff`); the first region in a shared
page drops the marks of the whole page (`FlagsAfterRun`, `MarksLost`); the signed
`DEFINE__AEABI_F2XLZ` turns -2^63 away although it is representable (`LeastRefused`);
`DEFINE__AEABI_D2XLZ` shifts by 64 too little between 2^21 and 2^32, and by negative amounts below
one (`D2xlz`); `DEFINE__AEABI_XL2F` and `__AEABI_XL2D` look at one bit to round, and lose a carry in
an odd exponent (`SingleCodeIsNearest`, `DoubleCodeIsNearest`); `__va_arg` aligns the end of a stack
argument, not its beginning (`StackAlignment`), and gives a float argument 8 bytes on the stack even
where it needs 16 (`SecureIffFits`), and one register where it takes two (`RunInStepIff`).

Shifts by negative amounts and by 32, which C leaves undefined, are taken as the ARM's shifts by a
register, by its low byte (`LongConversion.Lsl`); `F2xlz`, `D2xlz`, `Xl2f` and `Xl2d` depend on this.

## Model

| member | source | states |
|---|---|---|
| QuadFormat.UnpackedMeaning | lib/lib-arm64.c:93-105 | the significand and exponent that unpacking yields have the exact value of the number; exponent 32767 means infinity or NaN, and which of the two the fraction decides |
| QuadParts.Unpack | lib/lib-arm64.c:93-105 | sign, exponent and significand words, with the hidden bit exactly for normal numbers |
| QuadParts.Normalise | lib/lib-arm64.c:107-125 | the top bit ends up set and significand and exponent move by the same power of two; a zero is left alone |
| QuadParts.StickyShift | lib/lib-arm64.c:127-144 | for every shift of 0 or more the result is the quotient made odd when any bit is lost |
| Sticky.StickyShrCompose | lib/lib-arm64.c:127-144 | a sticky shift by s after one by t is the sticky shift by s+t |
| Sticky.StickyRight | lib/lib-arm64.c:127-144 | shifting an odd-rounded approximation of a real further right leaves an odd-rounded approximation of it |
| Sticky.GuardedIsNearest | lib/lib-arm64.c:159-174 | rounding from two guard bits of an odd-rounded significand gives the encoding nearest to the exact real, ties to even, in any binary format |
| QuadRound.RoundedIsNearest | lib/lib-arm64.c:146-182 | the code that the rounding step computes is nearest-even for the exact real, in normal, subnormal and overflowing ranges |
| QuadRound.Round | lib/lib-arm64.c:146-182 | for every normalised significand and every exponent the word-level code returns that code with its sign, through carry into the next binade, into the normals and into infinity |
| QuadRound.Increment | lib/lib-arm64.c:163-174 | the double-word increment with its renormalisation |
| Rounding.NearestIsUnique | lib/lib-arm64.c:146-182 | round to nearest, ties to even, has one answer for each real |
| Rounding.OverflowThreshold | lib/lib-arm64.c:176-177 | a real rounds to infinity exactly from halfway past the largest finite number on (IEEE 754-2008, section 4.3.1) |
| QuadNaN.DetectNaNs | lib/lib-arm64.c:74-91 | a NaN operand is found exactly when there is one, and the result is PropagatedNaN: the first signalling operand, else the first NaN, made quiet (see QuadLaws.SumOfNaN) |
| QuadNaN.ConvertNaN | lib/lib-arm64.c:66-72 | the NaN with its quiet bit set, its sign and the rest of its payload kept |
| QuadAdd.Align | lib/lib-arm64.c:209-221 | after the three guard bits and the sticky shift one operand is exact and the other an odd-rounded approximation of its scaled value |
| QuadAdd.SumIsSticky | lib/lib-arm64.c:225-228 | the sum of the aligned significands is an odd-rounded approximation of the exact sum |
| QuadAdd.DifferenceIsSticky | lib/lib-arm64.c:229-237 | so is the difference, whichever is larger, for any distance of the exponents |
| QuadAdd.NormalisedRounds | lib/lib-arm64.c:242-244 | three guard bits suffice: after any cancellation the normalised difference still rounds as the exact one does |
| QuadAdd.Combine | lib/lib-arm64.c:223-237 | two-word addition and subtraction with carry, borrow and negation yield sign and magnitude of the aligned sum |
| QuadAdd.F3Add | lib/lib-arm64.c:184-245 | for all operands the result is the exact sum or difference correctly rounded, with the NaN, infinity and zero-sign rules of sections 6.1 to 6.3 |
| QuadAdd.AddTf3 | lib/lib-arm64.c:247-250 | addition is IsSum |
| QuadAdd.SubTf3 | lib/lib-arm64.c:252-255 | subtraction is IsSum with the second operand negated |
| QuadMul.DigitsMeaning | lib/lib-arm64.c:286-295 | the four digits in base 2^30 are the significand without its low six zero bits |
| QuadMul.ProductIsExact | lib/lib-arm64.c:297-303 | the seven columns of digit products sum to the product of the numbers |
| QuadMul.CarryIsExact | lib/lib-arm64.c:297-303 | carrying from column to column keeps the sum |
| QuadMul.NoOverflow | lib/lib-arm64.c:296-303 | none of the partial sums reaches 2^64 |
| QuadMul.MultiplyHigh | lib/lib-arm64.c:285-308 | the two result words are the top 128 bits of the exact product, the lowest bit set also when any lower bit is |
| QuadMul.ProductRounds | lib/lib-arm64.c:309-319 | that word pair, renormalised, rounds as the exact real product does |
| QuadMul.MulTf3 | lib/lib-arm64.c:257-320 | for all operands the result is the exact product correctly rounded, with its special cases and signs |
| QuadDiv.DivideSignificands | lib/lib-arm64.c:354-366 | after 116 steps 2^116 times the dividend is twice divisor times quotient plus a remainder below twice the divisor, without overflow of 128 bits |
| QuadDiv.QuotientIsSticky | lib/lib-arm64.c:354-367 | quotient and remainder flag together are an odd-rounded approximation of the exact real quotient |
| QuadDiv.DivTf3 | lib/lib-arm64.c:322-372 | for all operands the result is the exact quotient correctly rounded, with its special cases and signs |
| QuadLaws.SumIsUnique | lib/lib-arm64.c:184-255 | what is required of a sum or difference leaves one result for each pair of operands |
| QuadLaws.ProductIsUnique | lib/lib-arm64.c:257-320 | likewise for a product |
| QuadLaws.QuotientIsUnique | lib/lib-arm64.c:322-372 | likewise for a quotient |
| QuadLaws.SumOfNaN | lib/lib-arm64.c:184-255 | a sum or difference is a NaN if and only if an operand is, or infinities cancel; it is quiet, with the sign and payload of the first signalling operand or else of the first NaN, or sign 0 and all fraction bits set for infinities that cancel |
| QuadLaws.ProductOfNaN | lib/lib-arm64.c:257-320 | likewise for a product, infinity times zero being invalid |
| QuadLaws.QuotientOfNaN | lib/lib-arm64.c:322-372 | likewise for a quotient, infinity over infinity and zero over zero being invalid |
| QuadLaws.SumCommutes | lib/lib-arm64.c:247-250 | addition of numbers commutes |
| QuadLaws.ProductCommutes | lib/lib-arm64.c:257-320 | multiplication of numbers commutes |
| QuadLaws.AddingZero | lib/lib-arm64.c:184-255 | adding or subtracting a zero of either sign returns any non-zero number unchanged |
| QuadLaws.SelfDifference | lib/lib-arm64.c:239-240 | x - x is +0 for every finite x |
| QuadLaws.RoundingIsMonotone | lib/lib-arm64.c:146-182 | rounding keeps the order of reals |
| QuadLaws.SumIsMonotone | lib/lib-arm64.c:184-255 | adding the same number to two numbers keeps their order, after rounding |
| QuadWiden.ExtendSingle | lib/lib-arm64.c:374-393 | sign, infinities and quieted NaNs are kept; the value of a finite number is kept if and only if it is not subnormal |
| QuadWiden.ExtendDouble | lib/lib-arm64.c:395-411 | the same for double precision |
| QuadWiden.SubnormalIsMisread | lib/lib-arm64.c:388-390 | the least single subnormal changes value, there being no case for subnormals |
| QuadWiden.SubnormalDoubleIsMisread | lib/lib-arm64.c:407-408 | so does the least double subnormal |
| QuadWiden.SubnormalSingle | lib/lib-arm64.c:388-390 | every single subnormal c comes out as (2^23 + c) * 2^-150, as if it had a hidden bit |
| QuadWiden.SubnormalDouble | lib/lib-arm64.c:407-408 | every double subnormal c as (2^52 + c) * 2^-1075 |
| QuadWiden.SinglePayload | lib/lib-arm64.c:385-387 | the payload of a single NaN is kept below the quiet bit |
| QuadWiden.DoublePayload | lib/lib-arm64.c:404-406 | that of a double NaN likewise, over both words |
| QuadNarrow.NarrowIsNearest | lib/lib-arm64.c:429-439 | two guard bits below the narrow format round as the quad does, for normal and subnormal results |
| QuadNarrow.TinyIsZero | lib/lib-arm64.c:427-428 | below the smallest exponents the correctly rounded result is zero |
| QuadNarrow.HugeIsInfinite | lib/lib-arm64.c:425-426 | beyond the largest exponents it is infinity |
| QuadNarrow.TruncTfSf2 | lib/lib-arm64.c:413-442 | for every quad the single is nearest-even, subnormal and overflowing results included; a NaN stays a quiet NaN of its sign and keeps the top of its payload |
| QuadNarrow.TruncTfDf2 | lib/lib-arm64.c:444-474 | the same for double precision |
| QuadNarrow.NarrowedSingleNaN | lib/lib-arm64.c:423-426 | a narrowed quad is a NaN exactly if the quad is one, then a quiet one; an infinity stays infinite and every sign is kept |
| QuadNarrow.NarrowedDoubleNaN | lib/lib-arm64.c:454-458 | the same for doubles |
| QuadWiden.SingleRoundTrip | lib/lib-arm64.c:374-442 | narrowing undoes widening on every zero, normal and infinite single |
| QuadWiden.DoubleRoundTrip | lib/lib-arm64.c:395-474 | the same for doubles |
| QuadInteger.IntegerCases | lib/lib-arm64.c:476-530 | by exponent: zero below one, the shifted significand in range, a bound beyond |
| QuadInteger.IntegerOfMeaning | lib/lib-arm64.c:476-530 | in range the integer that IntegerOf gives is next to the number on the side of zero, beyond the range it is a bound, and for a NaN the bound of its sign |
| QuadInteger.FixTfSi | lib/lib-arm64.c:476-489 | truncates toward zero and saturates to int32 |
| QuadInteger.FixTfDi | lib/lib-arm64.c:491-504 | truncates toward zero and saturates to int64 |
| QuadInteger.FixUnsTfSi | lib/lib-arm64.c:506-517 | truncates toward zero and saturates to uint32 |
| QuadInteger.FixUnsTfDi | lib/lib-arm64.c:519-530 | truncates toward zero and saturates to uint64 |
| QuadInteger.FloatSiTf | lib/lib-arm64.c:532-555 | the quad has exactly the value of the int32, the minimum included |
| QuadInteger.FloatDiTf | lib/lib-arm64.c:557-580 | the quad has exactly the value of the int64, the minimum included |
| QuadInteger.FloatUnSiTf | lib/lib-arm64.c:582-599 | the quad has exactly the value of the uint32 |
| QuadInteger.FloatUnDiTf | lib/lib-arm64.c:601-619 | the quad has exactly the value of the uint64 |
| QuadInteger.IntegerRoundTrip | lib/lib-arm64.c:476-619 | a quad that holds an integer of a type converts back to that integer |
| QuadCompare.CompareIsOrder | lib/lib-arm64.c:621-634 | the comparison is 2 exactly with a NaN; otherwise it is the sign of the difference of the values, both zeros equal and infinities extreme |
| QuadCompare.CompareIsPreorder | lib/lib-arm64.c:621-634 | on numbers it is reflexive, antisymmetric in its sign and transitive |
| QuadCompare.ComparisonPredicates | lib/lib-arm64.c:636-664 | the six functions give the predicates of IEEE 754-2008, section 5.11; every ordered one is false with a NaN |
| Regions.SlotIsGranule | lib/bcheck.c:188-191 | the two index computations by shifting and masking select the entry of the granule of the address |
| Regions.NewIsRepresented | lib/bcheck.c:497-515 | an entry that lists exactly the live regions of its granule lists the new region too, once, after the head insertion or the overwriting of an interior granule |
| Regions.FrontedIsRepresented | lib/bcheck.c:135-153 | moving the node found to the head changes nothing in what the entry represents |
| Regions.LookedIsExact | lib/bcheck.c:135-161 | head check and search together yield the one live region that contains the address, or else an empty or an invalid region |
| Regions.DeleteIsRepresented | lib/bcheck.c:587-625 | deleting from an entry, at an end or inside the region, takes that region off the list and no other |
| BoundsTable.Table.NewPage | lib/bcheck.c:298-314 | a page of empty entries |
| BoundsTable.Table.GetPage | lib/bcheck.c:329-339 | a shared page is replaced before it is written, so both shared pages keep their contents |
| BoundsTable.Table.Fill | lib/bcheck.c:545-581 | a fill loop rewrites the heads of a run of entries and nothing else |
| BoundsTable.Table.FindRegion | lib/bcheck.c:135-161 | the list search with its swap is the move to the front of the first node hit, or returns the empty or invalid page |
| Regions.NodeCount | lib/bcheck.c:497-625 | an entry has one list node fewer than live regions touch its granule, and none when none does |
| Regions.NewOwns | lib/bcheck.c:497-515 | the nodes of every granule stay its own, each listed once, when the two ends of a new region take fresh ones |
| Regions.FrontedOwns | lib/bcheck.c:135-153 | the search moves contents between nodes, and leaves the nodes where they are |
| Regions.DeleteOwns | lib/bcheck.c:587-625 | every granule keeps exactly its nodes that deletion does not free |
| Worlds.NodeBalance | lib/bcheck.c:316-327 | the nodes allocated are as many as those listed and those freed together |
| Worlds.ContainingIsUnique | lib/bcheck.c:786-788 | regions kept apart by a byte never share an address, their ends included |
| Lifetimes.LiveAfterRun | lib/bcheck.c:497-709 | after any run a region is live if and only if it was live, or has been created, and has not been deleted since |
| Lifetimes.FlagsAfterRun | lib/bcheck.c:329-339 | over any run no flag changes in a page that is not shared; a shared page loses all of its flags when a region first spans it |
| Lifetimes.CreationReads | lib/bcheck.c:497-584 | what every address but null reads as after a creation, from what it read before |
| Lifetimes.DeletionReads | lib/bcheck.c:587-709 | what every address but null reads as after a deletion, from what it read before |
| Lifetimes.AfterCreation | lib/bcheck.c:497-584 | a creation in a page that is not shared leaves every invalid address invalid, and accesses through those outside the live regions are turned away |
| Lifetimes.AfterFree | lib/bcheck.c:653-704 | if a deleted region began in a flagged granule, every address of it in a flagged granule outside the live regions is invalid from then on and accesses through it are turned away; if not, every address of it in a granule that no live region touches is let through |
| Lifetimes.HeapIsGuarded | lib/bcheck.c:178-243 | use after free over whole runs: in flagged granules of pages that are not shared, where regions that touch them begin in them, every address outside the live regions is turned away at all times |
| Lifetimes.HeapAtFirst | lib/bcheck.c:395-475 | the malloc zone inside its first page is such a heap from the start |
| Lifetimes.MarksLost | lib/bcheck.c:329-339 | the first region in a full page of the malloc zone leaves the rest of that page open to access |
| Zones.MarksRangeIffMarkable | lib/bcheck.c:342-393 | for every address and size: exactly the granules wholly inside the range are marked if and only if Markable holds, which shuts out ranges without a full page that do not start at a page boundary, the empty range at zero, starts in the last 255 bytes, and ends beyond memory, but for those that still come out right |
| Zones.MarkedWrongly | lib/bcheck.c:348-392 | four ranges, one of each kind, for which a granule outside is marked |
| Zones.NewZoned | lib/bcheck.c:329-339 | what creating a region does to the flags: pages that stop being shared lose them, others keep them |
| Zones.DeleteZoned | lib/bcheck.c:653-704 | what deleting one does: all its granules are left open or shut as its first one is flagged |
| Zones.MarkZoned | lib/bcheck.c:361-392 | what marking does to the flags of every granule |
| Zones.ReadsInvalidIs | lib/bcheck.c:155-160 | an entry outside the live regions reads as invalid exactly as its zones say |
| BoundsTable.Table.constructor | lib/bcheck.c:413-431 | a table of empty pages, and the two shared pages |
| BoundsTable.Table.Init | lib/bcheck.c:433-475 | after initialisation the table shows the static regions, created one after the other in the world that marking the two zones leaves; unless the malloc zone ends, or a static region reaches, into the last page, the invalid pointer is guarded |
| Startup.InitialFlags | lib/bcheck.c:361-392 | a granule is flagged at first exactly if the malloc zone marks it, or it lies in the page of the invalid pointer and the second marking did not open that page |
| Startup.InvalidPointerIff | lib/bcheck.c:433-458 | the invalid pointer reads as invalid at first if and only if the malloc zone does not end inside the last page, past its first granule |
| Startup.PointerZoneIff | lib/bcheck.c:433-458 | its whole page is invalid at first if and only if the malloc zone neither ends nor begins inside that page |
| Startup.MallocZoneIff | lib/bcheck.c:456-458 | marking the malloc zone marks exactly its granules if and only if it ends with memory or before, or begins within the first 255 bytes of the last page |
| Startup.FlagsZonesIff | lib/bcheck.c:433-458 | initialisation flags exactly the last page and the granules inside the malloc zone if and only if GoodBreak holds of the address that sbrk returns |
| Startup.ExposedPointer | lib/bcheck.c:433-458 | with sbrk(0) at 0xf7f80200 pointer arithmetic moves the invalid pointer to a valid address; at 0xf9000000 the malloc zone is not marked |
| Startup.GuardedAtFirst | lib/bcheck.c:433-458 | the invalid pointer is guarded at first if and only if the malloc zone does not end in the last page |
| Startup.InvalidStays | lib/bcheck.c:178-243 | in any run that creates no region reaching into the last page, a guarded invalid pointer stays invalid whatever is added to it; an access through it passes only if it ends with memory |
| BoundsTable.Table.NewNode | lib/bcheck.c:317-322 | a node is never one that was allocated before |
| BoundsTable.Table.FreeNode | lib/bcheck.c:324-327 | only a node that is allocated and not yet freed may be freed |
| BoundsTable.Table.AddRegion | lib/bcheck.c:497-515 | one entry gains a region at its head, with one new node exactly if it was occupied; the others are untouched |
| BoundsTable.Table.WriteRegion | lib/bcheck.c:529-581 | over one page or many, exactly the entries of the granules that the region touches change, each as the one-entry specification says, and its two ends take a node each if occupied |
| BoundsTable.Table.NewRegion | lib/bcheck.c:518-584 | a valid table becomes one that represents the new region too, its flags changed as ZonesAfterNew says, no node freed |
| BoundsTable.Table.Lookup | lib/bcheck.c:187-196 | in every valid table and for every address, null included, the entry found is the live region that contains it, or else empty or invalid as the zones say |
| BoundsTable.Table.PtrAdd | lib/bcheck.c:178-204 | inside a live region the moved pointer comes back exactly if it stays below the end of the region, modulo 2^32; outside, unless it reads as invalid |
| BoundsTable.Table.PtrIndir | lib/bcheck.c:208-243 | inside a live region an access of N bytes passes exactly if it ends at or before the end of the region; outside, unless it reads as invalid |
| BoundsTable.Table.GetRegionSize | lib/bcheck.c:713-728 | the size of the live region that starts at the address, or EMPTY_SIZE, or zero for an invalid null |
| BoundsTable.Table.DeleteEntry | lib/bcheck.c:587-625 | one entry loses the node that is hit, and exactly that node is freed |
| BoundsTable.Table.ClearRegion | lib/bcheck.c:661-704 | exactly the entries of the granules of the region change, each as the one-entry specification says, and the nodes that its two ends lose are freed |
| BoundsTable.Table.DeleteRegion | lib/bcheck.c:629-709 | returns -1 with nothing changed if and only if no live region starts at the address and the address is not a null that reads as invalid; otherwise returns 0 and removes that region alone, or none for null |
| BoundsTable.Table.MarkInvalid | lib/bcheck.c:342-393 | the table shows the zones that ZonesAfterMark gives |
| BoundsTable.Table.Run | lib/bcheck.c:135-728 | any run of creations, deletions, lookups, pointer arithmetic and accesses answers as the live regions and the invalid zones say, ends representing them, keeps the shared pages, and keeps allocated nodes equal to listed and freed ones |
| Division64.SubPair | lib/libtcc1.c:114-121 | two-word subtraction is subtraction modulo 2^64 |
| Division64.MulPair | lib/libtcc1.c:122-127 | the two words are the full product |
| Division64.DivPair | lib/libtcc1.c:128-134 | the divide instruction, callable only when the quotient fits one word |
| Division64.LeadingZeros | lib/libtcc1.c:135-141 | shifting by the leading zero count sets the top bit and loses nothing |
| Division64.DivByWord | lib/libtcc1.c:166-196 | division by one word without normalisation |
| Division64.DivByWordNormalised | lib/libtcc1.c:200-270 | division by one word with normalisation |
| Division64.TrialQuotient | lib/libtcc1.c:336-343 | the normalised trial quotient exceeds the true one by at most one |
| Division64.TrialResult | lib/libtcc1.c:339-354 | the single correction and the wrapping subtractions leave quotient and remainder |
| Division64.DivByTrial | lib/libtcc1.c:323-355 | quotient and remainder of two double words by normalise, try, correct once, shift back |
| Division64.DivByTwoWords | lib/libtcc1.c:274-357 | all cases of a two-word divisor |
| Division64.UdivModDi4 | lib/libtcc1.c:148-362 | n / d and n % d for every n and every d that is not 0 |
| Division64.UdivModDi4Normalised | lib/libtcc1.c:148-362 | the same under UDIV_NEEDS_NORMALIZATION, so both variants agree |
| Division64.DivDi3 | lib/libtcc1.c:366-387 | the quotient rounded towards zero modulo 2^64; in range except for the least integer over -1 |
| Division64.ModDi3 | lib/libtcc1.c:389-409 | the remainder with the sign of the dividend, in range for every divisor |
| Words32.TruncatedDivision | lib/libtcc1.c:366-409 | quotient and remainder rounded towards zero are the only pair with n = q*d + r, |r| < |d| and r of the sign of n |
| Division64.AshrDi3 | lib/libtcc1.c:425-441 | division by a power of two, rounding down |
| Division64.LshrDi3 | lib/libtcc1.c:444-460 | unsigned division by a power of two |
| Division64.AshlDi3 | lib/libtcc1.c:463-479 | multiplication by a power of two modulo 2^64 |
| ArmDivision.DoublingTest | lib/armeabi.c:363 | the wrapping products of the doubling test decide exactly whether twice the multiple fits |
| ArmDivision.TopStep | lib/armeabi.c:360-364 | the inner loop ends with the largest power of two whose multiple of the divisor fits |
| ArmDivision.UxDivMod | lib/armeabi.c:352-373 | in 32 and in 64 bits: quotient and remainder for every divisor that is not 0, in as many rounds as the quotient has one bits; in 64 bits therefore what __udivmoddi4 returns |
| ArmDivision.XDivMod | lib/armeabi.c:375-402 | the signed forms truncate toward zero, wrapping only for the least integer over -1 |
| ArmDivision.IDiv | lib/armeabi.c:472-489 | likewise, with the sign put on by a product |
| ArmDivision.Llsl | lib/armeabi.c:423-439 | multiplication by a power of two modulo 2^64 |
| ArmDivision.Llsr | lib/armeabi.c:441-460 | unsigned division by a power of two |
| ArmDivision.Lasr | lib/armeabi.c:441-465 | division by a power of two, rounding down |
| LongConversion.TruncatedMagnitude | lib/libtcc1.c:529-583 | truncating a single or a double is shifting its significand by its exponent |
| LongConversion.FixUnsSfDi | lib/libtcc1.c:529-551 | for every bit pattern the magnitude truncated and saturated to 64 bits |
| LongConversion.FixUnsDfDi | lib/libtcc1.c:560-583 | the same for doubles |
| LongConversion.FixSfDi | lib/libtcc1.c:553-558 | the truncated number saturated at 2^64 - 1 in magnitude, modulo 2^64, so the truncated number itself exactly where that is an int64; 1 for a NaN |
| LongConversion.FixDfDi | lib/libtcc1.c:585-590 | the same for doubles |
| LongConversion.SingleWords | lib/armeabi.c:91-111 | the two words hold the significand shifted by the exponent, in all four cases and below one |
| LongConversion.F2xlz | lib/armeabi.c:70-131 | returns a value exactly for the numbers it accepts (below 2^64 and above -1, or |v| < 2^63 for the signed form, which turns -2^63 away), and then the truncated number; so it agrees with __fixunssfdi |
| LongConversion.LeastRefused | lib/armeabi.c:84-87 | the single 0xdf000000 is -2^63, an int64 that the signed form turns away |
| LongConversion.DoubleWords | lib/armeabi.c:155-178 | the two words are DoubleResult: the shifted significand, between 2^21 and 2^32 a bare power of two, and below one what shifts by negative amounts leave |
| LongConversion.D2xlz | lib/armeabi.c:134-200 | accepts as F2xlz does; the words are then DoubleResult with its sign, and right if and only if ShiftsWell holds |
| LongConversion.ResultIffShiftsWell | lib/armeabi.c:155-178 | what the word-by-word shift yields is the truncated magnitude exactly if ShiftsWell holds |
| LongConversion.BadConversions | lib/armeabi.c:172-178 | 2^21 + 1 comes out as 2^21, and zero as 2 |
| LongConversion.NegateWords | lib/armeabi.c:180-191 | complement and carry by words is negation modulo 2^64 |
| LongConversion.AcceptsRepresentable | lib/armeabi.c:83-91 | the conversions by words accept exactly the integers that some word stands for, but for -2^63 |
| LongConversion.BelowOne | lib/armeabi.c:155-178 | below one the double conversion takes the exponent modulo 256: the result is that of the reduced exponent if it is below 32, and zero otherwise |
| LongFloat.RoundedInteger | lib/armeabi.c:244-248 | the single or double nearest to an integer of up to 64 bits, ties to even |
| LongFloat.MergedIsNearest | lib/armeabi.c:244-254 | merging fraction and exponent by a bitwise or is right if and only if the fraction is incremented as it must be and no carry meets an odd exponent |
| LongFloat.ScanBits | lib/armeabi.c:218-231 | the scan ends at the top bit, or with an empty mask for zero |
| LongFloat.Xl2f | lib/armeabi.c:203-260 | for every 64-bit integer, signed or not, the words are the sign and SingleCode of the magnitude |
| LongFloat.SingleCodeIsNearest | lib/armeabi.c:203-254 | that code is the correctly rounded single if and only if RoundsSingle holds: up to 24 bits always, otherwise a condition on the kept part, the lost part and the width of the integer |
| LongFloat.Xl2d | lib/armeabi.c:263-333 | for every 64-bit integer, signed or not, the words are the sign and DoubleCode of the magnitude |
| LongFloat.DoubleCodeIsNearest | lib/armeabi.c:263-327 | that code is the correctly rounded double if and only if RoundsDouble holds: unless it is half-way above an even fraction, or a carry is lost in an odd exponent |
| LongFloat.SingleIsNextTo | lib/armeabi.c:203-254 | right or not, the single is one of the two next to the integer, but for a lost carry, which gives the power of two below, and for integers of 33 to 54 bits without lost bits, which may come out one too high |
| LongFloat.DoubleIsNextTo | lib/armeabi.c:263-327 | the double always is, but for a lost carry |
| LongFloat.BadRoundings | lib/armeabi.c:203-327 | integers that are rounded wrongly, with the codes that come out: 2^25 - 1 becomes the single 2^24, and 2^55 - 1 the double 2^54 |
| Search.ReachableByFirst | examples/ex2.c:28-55 | a target can be produced exactly if some first step produces it or leaves a table that can |
| Search.RunIsShort | examples/ex2.c:34-59 | a run of steps is shorter than the count of non-zero numbers, which bounds the recursion and the trace |
| Search.AllTried | examples/ex2.c:37-55 | the six attempts cover every operation on a pair |
| Search.Searcher.Find | examples/ex2.c:13-65 | succeeds exactly if the number is the target or some run of legal steps produces it; then the trace arrays hold such a run after the calls that led here, and otherwise the table (but for the number passed in), the stack pointer and the trace are as they were; no array is overrun with up to 20 numbers |
| Search.Searcher.TryPair | examples/ex2.c:30-60 | the same for the body of the inner loop, with the pair restored on failure |
| Search.Searcher.Attempt | examples/ex2.c:37-54 | one attempt: success extends the derivation, failure rules its first step out |
| Search.Solve | examples/ex2.c:77-98 | the answer is yes exactly if the target is reachable from the numbers, and the listed steps derive it |
| Interlocked.StepKeeps | win32/include/winapi/winbase.h:981-1036 | every step of every thread keeps: value equals the replay of committed operations, the history is consistent, each thread is where its events say, and its failures are paid for |
| Interlocked.Linearizable | win32/include/winapi/winbase.h:981-1036 | in every run of any threads the value is what the calls make of it in the order they took effect, and every return belongs to one call that took effect once in between and answered from the value it found |
| Interlocked.EffectOrder | win32/include/winapi/winbase.h:981-1036 | that order respects real time, and effects, invocations and returns pair off one to one |
| Interlocked.FailedSwap | win32/include/winapi/winbase.h:983-985 | a swap fails only if another thread took effect since the first load of this attempt, even if the load was torn |
| Interlocked.RetriesBounded | win32/include/winapi/winbase.h:981-1036 | a thread fails at most as often as other threads succeed |
| Interlocked.UpdateBits | win32/include/winapi/winbase.h:981-1004 | the bitwise operations on words, bit by bit (what the calls do with them says EffectOfCall) |
| Interlocked.AnswerIsValue | win32/include/winapi/winbase.h:981-1036 | a call answers the value just before it took effect; increment and decrement the value just after |
| Interlocked.EffectOfCall | win32/include/winapi/winbase.h:981-1036 | what each call makes of the value that it finds: bit by bit for and, or and exclusive or, modulo 2^64 for the additions, and the new value for an exchange |
| Interlocked.SwapTakesEffect | win32/include/winapi/winbase.h:981-1036 | a swap of a thread that has seen the present value stores the update and records one effect |
| Interlocked.AloneReturns | win32/include/winapi/winbase.h:981-1036 | a thread left alone at any point has a step to take until it has returned, which is after six steps or fewer and at most one failed swap |
| Interlocked.FirstAttempt | win32/include/winapi/winbase.h:981-1036 | one left alone as it begins to read succeeds at its first attempt, within four steps: one effect and one return |
| Interlocked.NothingLost | win32/include/winapi/winbase.h:1006-1036 | with additions only, the value is the initial one plus the sum of all, modulo 2^64 |
| VaList.Cursors.VaStart | lib/va_list.c:25-31 | the cursor starts from the saved offsets, the save area below the frame and the stack arguments above it |
| VaList.Cursors.VaArg | lib/va_list.c:33-64 | the masked word arithmetic returns the slot, and leaves the cursor, that the plain specification gives |
| VaList.Cursors.TakeAll | lib/va_list.c:33-64 | any sequence of calls hands out the slots that the run of the specification has |
| VaList.SlotsDisjoint | lib/va_list.c:33-64 | no two places that a run hands out overlap; a float argument has 16 bytes in a register and 8 on the stack, whatever its size |
| VaList.SlotPlace | lib/va_list.c:39-59 | general arguments lie in the first 48 bytes of the save area, float ones at 16-byte places of the next 128, all others on the stack |
| VaList.RoomIffFits | lib/va_list.c:40-59 | a place has room for the argument if and only if it is not a float argument of more than 16 bytes in a register or 8 on the stack |
| VaList.FittingBytes | lib/va_list.c:33-64 | in any run of arguments that fit, no two share a byte |
| VaList.SecureIffFits | lib/va_list.c:33-64 | with float arguments of at most 16 bytes (x86_64-gen.c:1133-1161), every prefix of a run stays clear of one more word on the stack if and only if all its arguments fit |
| VaList.SharedBytes | lib/va_list.c:52-59 | two doubles in a structure, passed on the stack, share their last 8 bytes with the next argument |
| VaList.StackInOrder | lib/va_list.c:55-59 | stack arguments follow each other upwards |
| VaList.StackAlignment | lib/va_list.c:57-59 | a stack argument ends at the first aligned address that leaves room for it; its beginning is aligned if and only if its alignment divides its size, and is then the first aligned address (section 3.5.7 of the ABI) |
| VaList.Misaligned | lib/va_list.c:57-59 | an 8-byte argument of alignment 16 is handed out 8 bytes too high |
| VaPassing.InStepIff | lib/va_list.c:33-64 | one argument is read piece by piece where it was passed, and the cursor goes on as the caller did, if and only if it is not a float argument of more than 8 bytes, nor one on the stack whose alignment does not divide its size |
| VaPassing.RunInStepIff | lib/va_list.c:33-64 | over a whole run every argument is read where it was passed (section 3.5.7 of the ABI; x86_64-gen.c:1431-1481) and the cursor agrees at every step if and only if each argument conforms |
| VaPassing.OutOfStep | lib/va_list.c:47-51 | two doubles in a structure take two registers but one step: the second is read from the wrong half of the first place, and the argument after it from the place of the second |
| VaPassing.OrdinaryRun | lib/va_list.c:33-64 | ordinary arguments of one word each, in any mixture: general ones take the general registers that are left, in order, float ones the float registers, all others follow each other on the stack |

## Left out

- BoundsTable.Table.DeleteRegion: null may not be deleted while a region touches its granule and that granule is flagged, for the code then compares addresses in different pages.
- BoundsTable.Table.MarkInvalid: called only while no region is live, as the source notes ("only during init"). The pages of its own that a full range replaces are dropped.
- BoundsTable.Table.Init: `sbrk(0)` and the list of static regions are parameters, and CONFIG_TCC_MALLOC_HOOKS is defined.
- List nodes of `lib/bcheck.c` are values with an address, in a sequence in the entry that owns them; addresses are never reused. Allocation always succeeds.
- The 64-bit layout of the bounds table: `BOUND_E_BITS` is log2 of the entry size only in the 32-bit one.
- malloc hooks, error output, frame lookup for local regions, and the checked memory and string functions of `lib/bcheck.c`.
- The quad code has no exception flags.
- QuadFormat.UnpackedMeaning: copying between `long double` and words by memory is taken as the identity.
- LongConversion.FixSfDi: the host's comparison with zero and its negation are read off the sign bit, as in FixDfDi.
- `__floatundisf`, `__floatundidf`, `__floatundixf` and `__fixunsxfdi` of `lib/libtcc1.c`: the first three are the host's floating point; the last repeats FixUnsDfDi in the 80-bit format.
- Division by zero: an exception in `lib/libtcc1.c`, an endless loop in `lib/armeabi.c`.
- Search.Searcher.Find: integers are unbounded, C's overflow is not modelled. Argument parsing and printing are left out.
- Interlocked.Linearizable: memory is sequentially consistent, and InterlockedCompareExchange64 is one atomic step.
- VaList.Cursors.VaArg: reading the argument from its slot is up to the caller; the abort for an unknown type is excluded by the type.
- The calling-convention trick REGS_RETURN of `lib/armeabi.c`.
- The compiler itself, its headers and its opcode tables.
