# Verified models of the FLOAT library, the typing game and the kernel tables

This Dafny project models four parts of the NEMU2020 repository and proves what they promise:

* **16.16 fixed-point arithmetic**: shift-and-subtract division, conversion from IEEE single
  precision, square root, cube root, decimal output, and the numerical integration built on them.
  Modules `Int32`, `FixedPoint`, `FloatBits`, `Roots`, `Format`, `Integral`.
* **The typing game**: a static node pool whose free list and doubly linked live list share one
  link field, the letters that live on it, the keyboard flags, and the main loop with its timer
  and keyboard interrupts. Modules `FlyList`, `Letters`, `Keyboard`, `Effect`, `GameLoop`.
* **Kernel memory**: page directories and tables against the two-level page walk of section 5.2
  of the Intel 80386 Programmer's Reference Manual, the ELF loader and the program break.
  Modules `Paging`, `Loader`.
* **Small pointer and array cores**: interrupt handler chains and the quicksort with a hole.
  Modules `Irq`, `QuickSort`.

`dafny verify dfyconfig.toml` checks everything.

## How the code is modelled

* The code is compiled with `-m32`. A variable of type `int32` carries the proof that what is
  assigned to it fits an `int`. Where the C code can leave the range (division, conversion from
  float, the narrowing after a multiplication) the operation is modelled as the i386 performs it:
  results modulo 2^32, shift counts modulo 32. The ghost result `safe` of `DivF` and `FromFloat`
  says whether that happened.
* A pool pointer is an index into the pool array, NULL is -1. Lists are tied to ghost sequences
  of indices.
* The main loop is a state machine over the points where shared variables are touched; timer and
  keyboard interrupts may come between any two steps while interrupts are enabled. A keyboard
  interrupt between the creation of a letter and the release of its key has the same effect as
  one before the creation, so the two are one step. Class `MainLoop` runs the same steps on the
  real data structures and is proved to follow the machine. HZ is any frequency from 100 on;
  game/src/typing/include/game.h:5 sets 100. Values of `rand()`, scan codes and the arrival of
  interrupts are inputs.
* Physical memory is one array of words. The linker's placement of the four tables is a `Layout`:
  page-aligned, disjoint, inside the 128 MB.
* The page-table fill (kernel/src/memory/kvm.c:36-41) is modelled as its assembly. The C loop given
  there as a comment (lines 44-55) tests an unsigned counter with `>= 0` and is not modelled.
* `mm_malloc`, which is shipped as an object file only, appears as the log of the ranges requested
  and as the disjoint physical places it returns to the loader.

## What the proofs found in the code

* The division is wrong for some divisors above 2^30 even when the quotient is small: a shift that
  overflows loses a digit for good, and the result is too small by less than 1.0.
* INT_MIN keeps its sign when the division negates it. As a dividend it gives a quotient of the wrong
  sign, except when divided by 1.0; INT_MIN / 3.0 comes out positive. As a divisor it gives plus or
  minus 65535 units (131071 for INT_MIN / INT_MIN), whatever the dividend.
* `f2F` shifts by 32 or more below biased exponent 103; on the i386 the result is then wrong
  unless the shift happens to leave nothing. From 142 on it overflows, except for -32768.0.
* `sqrt(0)` returns 4 units, and `sqrt(-4.0)` divides by zero.
* `pow` divides by zero at 0, at -16.0, and at 3056.0, where the square of the second iterate wraps
  around to 0. From 1 unit to 3055.8 it is a cube root, although that square already wraps
  around to a negative number from 2157 on.
* `format_FLOAT` never negates a negative value, because `f & 0x80000000` is compared with 1, so
  every negative FLOAT but INT_MIN is printed wrongly.
* The integrand of `integral.c` is computed wrongly as soon as 1 + 25 x^2 exceeds 2^30 units, at 25.6.
* `computeT` overflows for 32768 intervals at the maximum of the integrand.
* The assertion in `add_irq_handle` admits a 33rd handler.
* Installing the video mapping can change a translation from 4 MB on only if its page table is the
  video table or, through entry 0, the user directory itself.
* The loader advances its header pointer by 0, 1, 2, ..., so a third program header is skipped.
* The loader does not check that a segment is no larger in the file than in memory; where it is, the
  length of the `memset` behind it wraps around.
* The loader records the last byte of a segment as the break, so the first growth of the break
  requests that byte again, and no other.

## Model

| member | source | states |
|---|---|---|
| FixedPoint.IntRoundTrip | lib-common/FLOAT.h:8-15 | an integer survives `int2F` then `F2int` if and only if it fits in 16 bits with sign |
| FixedPoint.IntToFIsExact | lib-common/FLOAT.h:13-15 | `int2F` is the product by 65536 if and only if the integer fits in 16 bits with sign, and its low 32 bits always |
| FixedPoint.FToIntIsFloor | lib-common/FLOAT.h:8-11 | `F2int` is the floor of a / 65536 |
| FixedPoint.MulFIsFloor | lib-common/FLOAT/FLOAT.c:3-7 | `F_mul_F` is the exact product rounded down if and only if that is an int, and its low 32 bits always |
| FixedPoint.DivF | lib-common/FLOAT/FLOAT.c:9-53 | for all operands with b != 0: the result is a * 65536 / b truncated toward zero if and only if `DivExact` holds (for operands other than INT_MIN: the quotient is an int and twice the remainder before each of the 16 steps is below 2^31; INT_MIN as a dividend: b is 1.0; as a divisor: the magnitude of the dividend is at least 0x7FFF8000 and it is not INT_MIN); no operation leaves the int range if and only if `DivSafe` holds; without INT_MIN a quotient that is an int is missed by less than 1.0, toward zero; INT_MIN as a dividend gives the wrong sign for every quotient that is an int, except for b = 1.0; INT_MIN as a divisor gives 65535 units, -65535 or 131071; for dividends other than INT_MIN and divisors up to 2^30 the result is always the quotient modulo 2^32 |
| FixedPoint.InRangeIsSafe | lib-common/FLOAT/FLOAT.c:40-51 | for divisors up to 2^30 every shift has room, so `DivSafe` says only that the quotient is an int and no operand INT_MIN |
| FixedPoint.LargeDivisorWrong | lib-common/FLOAT/FLOAT.c:42-51 | beyond 2^30 there are operands whose quotient is a FLOAT and whose result is not that quotient |
| FixedPoint.MinimumDividendWrong | lib-common/FLOAT/FLOAT.c:28-33 | INT_MIN / 3.0 is a FLOAT and the result is not that quotient |
| FixedPoint.DividingEnd | lib-common/FLOAT/FLOAT.c:41-52 | after 16 steps the quotient brought down is the exact one if every doubled remainder fits, and otherwise too small, by 1 to 65535 |
| FixedPoint.BringDownFraction | lib-common/FLOAT/FLOAT.c:41-52 | the 16 shift-and-subtract steps keep d * 2^i == quotient * b + remainder + 2^32 * what the shifts lost, for any signs; the machine quotient is that one modulo 2^32; for d >= 0 nothing overflows if and only if every doubled remainder and the quotient fit; with INT_MIN for a divisor every digit is 1 |
| Int32.TruncDivCorrect | lib-common/FLOAT.h:22-25 | C division gives the exact quotient rounded toward zero |
| Int32.TruncatedQuotientUnique | lib-common/FLOAT.h:22-25 | no other number is that, so the contracts that say a result is a truncated quotient determine it |
| FloatBits.FromFloat | lib-common/FLOAT/FLOAT.c:55-76 | for every bit pattern: the result is the encoded value times 2^16 truncated toward zero if and only if the pattern is `Convertible`, in reals: 1.fraction times 2^(exponent - 127), or 0.fraction times 2^-126; for every pattern it is the significand shifted by the count modulo 32, in 32 bits; all shifts are in range and nothing overflows if and only if the biased exponent is 103 to 141 |
| FloatBits.ValueOfPattern | lib-common/FLOAT/FLOAT.c:66-76 | for any sign, exponent and fraction: what the specification says of the pattern composed of them is that the result is 2^16 times the real number they encode, rounded toward zero |
| FloatBits.FieldsMakePattern | lib-common/FLOAT/FLOAT.c:66-69 | the three fields taken from a pattern compose it again |
| FloatBits.TruncatedValueUnique | lib-common/FLOAT/FLOAT.c:55-76 | the truncated value of a pattern is unique, so the contract of `FromFloat` determines its result |
| FloatBits.RightShiftTooLong | lib-common/FLOAT/FLOAT.c:72 | an over-long right shift leaves the right result (zero) exactly when the significand is shorter than the count modulo 32 |
| FloatBits.LeftShiftOverflows | lib-common/FLOAT/FLOAT.c:73 | from biased exponent 142 on the magnitude is at least 2^31, and it is 2^31 for one significand only |
| Roots.ThresholdIsSixUnits | lib-common/FLOAT/FLOAT.c:90 | `f2F(1e-4)` is 6 units |
| Roots.AbsF | lib-common/FLOAT/FLOAT.c:78-80 | `Fabs` is the magnitude if and only if the argument is not INT_MIN |
| Roots.SqrtStepAbove | lib-common/FLOAT/FLOAT.c:88-89 | one Newton step never falls more than one unit below the square root |
| Roots.SqrtStopBelow | lib-common/FLOAT/FLOAT.c:88-90 | a step of at most 6 units ends less than one unit above the root |
| Roots.SqrtIteration | lib-common/FLOAT/FLOAT.c:87-90 | every step stays in the int range, and after the first one either stops or lowers the iterate |
| Roots.Sqrt | lib-common/FLOAT/FLOAT.c:84-93 | `sqrt` terminates for every x >= 0 without overflow; for x > 0 the result is within one unit of the exact root, for 0 it is 4 units |
| Roots.SqrtOfNegative | lib-common/FLOAT/FLOAT.c:84-90 | for negative x the second iteration divides by zero if and only if x is -4.0 (-262147 to -262144 units) |
| Roots.CubeStepAbove | lib-common/FLOAT/FLOAT.c:99-101 | one truncated step never falls more than one unit below the cube root |
| Roots.CubeQuotientBound | lib-common/FLOAT/FLOAT.c:99-100 | from 12 units on and after the first step the quotient exceeds the iterate by less than 21 units, so the loop cannot climb |
| Roots.TinyQuotient | lib-common/FLOAT/FLOAT.c:99-100 | the same from 1 to 11 units, except for four iterates of 3 and 5 units |
| Roots.GoneUp | lib-common/FLOAT/FLOAT.c:99-102 | from those four the iterate goes up once, and the next step ends the loop |
| Roots.LargeIteration | lib-common/FLOAT/FLOAT.c:99-101 | an iterate above 128.0, whose square has left the range for exact division or has wrapped around, still goes down and not below the root |
| Roots.CubeStopBelow | lib-common/FLOAT/FLOAT.c:99-102 | a step of at most 6 units ends less than `Precision(x)` units (1 from 1.01 on, 2 from 1040 units, 7 from 12 units, 15 from 1 unit) above the cube root, despite three truncations |
| Roots.CubeIteration | lib-common/FLOAT/FLOAT.c:98-102 | every step keeps the iterate in range; after the first one it stops, lowers the iterate, or goes up where that happens once; a step that stops is next to the root |
| Roots.CubeDivision | lib-common/FLOAT/FLOAT.c:99-100 | the truncated square is zero exactly for iterates below 256 units, which are reached for x = 0 only; every other division of the loop is exact up to 128.0, and has a quotient in range beyond |
| Roots.Pow | lib-common/FLOAT/FLOAT.c:95-106 | for every x from 0 to 3055.8 and whatever y is, `pow` terminates; it divides by zero if and only if x is 0; otherwise no addition overflows and the result is above the cube root minus one unit and below it plus `Precision(x)` units (1 from 1.01 on) |
| Roots.SquareVanishes | lib-common/FLOAT/FLOAT.c:97-100 | at 3056.0 the second iterate is 256.0 and its square wraps around to the divisor 0 |
| Roots.CubeRootOfNegative | lib-common/FLOAT/FLOAT.c:97-101 | at -16.0 the second iterate is 0, and so is the divisor |
| Format.FormatFloat | lib-common/FLOAT/FLOAT_vfprintf.c:39-49 | for every FLOAT the text is `FloatText(f)`: an integer part without leading zeros, a point and exactly six digits, with a minus sign for f < 0; it reads back to f (to f + 2^32 if negative); it shows f rounded down to six decimals if and only if f >= 0 or f is INT_MIN; it fits the buffer |
| Format.ShownOnce | lib-common/FLOAT/FLOAT_vfprintf.c:12-18 | only one text shows f with six decimals, so the contract of `FormatFloat` determines the text |
| Format.TextParts | lib-common/FLOAT/FLOAT_vfprintf.c:41-47 | the printed integer part and six digits parse back to the numbers printed, and the text has that shape |
| Format.FractionFromMillionths | lib-common/FLOAT/FLOAT_vfprintf.c:42-43 | rounding the six digits up to 1/65536 gives the fraction back |
| Format.DocumentedExamples | lib-common/FLOAT/FLOAT_vfprintf.c:12-18 | the two documented texts: 0x10000 gives "1.000000" and 0x13333 gives "1.199996" |
| Integral.F | testcase/src/integral.c:4-7 | for every x whose 1 + 25 x^2 is an int: no operation before the division overflows, and the result is the quotient `Runge` if and only if 1 + 25 x^2 is at most 2^30, that is |x| <= 25.5993 |
| Integral.RungeError | testcase/src/integral.c:4-7 | `Runge` is less than 1 unit below and less than 25 units above the exact 1 / (1 + 25 x^2) |
| Integral.RungeIsFloor | testcase/src/integral.c:4-7 | `Runge` is 2^32 divided by 1 + 25 x^2 in FLOAT units, rounded down, the square being rounded down first |
| Integral.ComputeT | testcase/src/integral.c:9-19 | for any integrand whose sums fit, computeT is the rounded sum at its own sample points times the interval length |
| Integral.SumMeans | testcase/src/integral.c:12-15 | the sum starts with half the values at the end points, rounded toward zero, and adds the value at each inner sample point |
| Integral.SampleBetween | testcase/src/integral.c:12-15 | every sample point lies between the end points |
| Integral.SumError | testcase/src/integral.c:13-16 | the running sum is less than 25 units per sample above and one unit per sample and a half below the exact trapezoid sum |
| Integral.RungeTrapezoidFits | testcase/src/integral.c:12-16 | no addition overflows for at most 32767 intervals within [-25.5993, 25.5993] |
| Integral.TooManyIntervals | testcase/src/integral.c:14-16 | from 32768 intervals on there are arguments for which the sum overflows |
| Integral.Integrate | testcase/src/integral.c:9-19 | computeT over f is within 25 units per unit of length, plus one, of the exact trapezoid rule at its sample points, at every one of which f returns the integrand |
| Integral.TenIntervals | testcase/src/integral.c:21-26 | the interval length, sum and result of the test: 13107, 180634 and 36126 units |
| Integral.RunTest | testcase/src/integral.c:21-26 | the assertion of the test holds: with its literals converted by `f2F`, 36126 against 36124 units, and a threshold of 6 |
| Integral.NearestSingles | testcase/src/integral.c:22-25 | the patterns of -1.0, 1.0, 0.551222 and 1e-4 are the nearest singles |
| QuickSort.Partition | testcase/src/quick-sort.c:8-21 | the pivot ends at m with smaller or equal elements before and larger ones behind it; p..q is permuted and nothing else changes, although elements are overwritten while the pivot is held out |
| QuickSort.Sort | testcase/src/quick-sort.c:23-29 | any range of any array ends ascending and permuted, everything outside unchanged; an empty or one-element range is left alone |
| QuickSort.SortedWithinMeans | testcase/src/quick-sort.c:23-29 | what `Sort` ensures says: the range ascends, holds the same elements as often as before, and nothing else changes |
| QuickSort.SortParts | testcase/src/quick-sort.c:26-28 | sorting both sides of a partitioned pivot sorts the range |
| QuickSort.SortedUnique | testcase/src/quick-sort.c:23-29 | the ascending arrangement is unique, so the contract of `Sort` determines the array |
| QuickSort.SortedNumbers | testcase/src/quick-sort.c:31-41 | the assertion of the test: an array holding 0..n-1 in any order ends with each number at its index |
| FlyList.FlyPool.constructor | game/include/adt/linklist.h:44-45 | the pool starts with every link NULL and no free list |
| FlyList.FlyPool.New | game/include/adt/linklist.h:46-61 | allocation takes the first free node; its assertion holds if and only if a node other than the sentinel is free; the first call links the whole pool |
| FlyList.FlyPool.Insert | game/include/adt/linklist.h:70-76 | insertion changes exactly the three nodes involved and keeps the free list |
| FlyList.FlyPool.Remove | game/include/adt/linklist.h:77-82 | removal changes exactly the two neighbours and keeps the free list |
| FlyList.FlyPool.Free | game/include/adt/linklist.h:83-86 | freeing pushes the node onto the free list |
| FlyList.InsertAtHead | game/include/adt/linklist.h:70-76 | inserting before the head extends a doubly linked list by one node in front |
| FlyList.InsertBetween | game/include/adt/linklist.h:70-76 | inserting between any two neighbours, before the head or behind the end, puts the node there |
| FlyList.RemoveAt | game/include/adt/linklist.h:77-82 | removing any node leaves the others doubly linked in the same order |
| FlyList.PartitionNew | game/include/adt/linklist.h:57-58 | an allocation moves one node from the free to the live list and keeps the two a partition of the pool |
| FlyList.PartitionFree | game/include/adt/linklist.h:83-86 | freeing moves it back |
| Effect.TypingGame.PoolShape | game/include/adt/linklist.h:43-86 | after the first allocation every pool node is on exactly one of two acyclic lists, the free list ends in the sentinel and is never empty, and prev and next are inverse on the live list |
| Effect.TypingGame.RandomSpeed | game/src/typing/effect.c:44 | the random speed is between 0.5 and 1.0 and nothing overflows |
| Effect.NewLetterMeans | game/src/typing/effect.c:42-45 | a new letter is at the top, in a column of 8 pixels on the screen, its speed 0.5 plus thousandths of 0.5, rounded down, and its text one of 26 |
| Effect.NearestSingles | game/src/typing/effect.c:44-56 | the patterns of 7.9 and 0.5 are the nearest singles |
| Effect.TypingGame.CreateNewLetter | game/src/typing/effect.c:32-47 | a letter with the given random column, speed and text is put in front at the top and its key is up, unless 1000 letters are on the list; no other letter or key changes |
| Effect.TypingGame.LeavesScreen | game/src/typing/effect.c:56 | the off-screen test: x is negative or x + 7.9 beyond 200.0, without overflow |
| Effect.TypingGame.UpdateOne | game/src/typing/effect.c:54-63 | one letter is moved by its own velocity and kept, or taken off the list, freed and counted as hit at the top or missed at the bottom; the walk goes on with the node read before |
| Effect.TypingGame.UpdateLetterPos | game/src/typing/effect.c:50-65 | although nodes are freed during the walk: the letters become, in order, exactly those that are on the screen after moving by their own velocity; hit grows by the number that leave at the top, miss by the number that leave at the bottom |
| Letters.Conservation | game/src/typing/effect.c:56-62 | every letter is kept, hit or missed by an update |
| Letters.SurvivorsInOrder | game/src/typing/effect.c:53-64 | the survivors are the letters with x + v on the screen, exactly those, in their old order, with x advanced by v and nothing else changed |
| Letters.LeavingCounted | game/src/typing/effect.c:57-59 | the letters counted as hit are those with x + v < 0, those counted as missed those with x + v beyond the screen |
| Letters.Target | game/src/typing/effect.c:75-81 | the target has maximal x among the falling letters whose key is pressed, the first of them, or there is none |
| Letters.TargetIsLowest | game/src/typing/effect.c:75-81 | for letters on the screen: there is no target exactly if no falling letter has its key pressed, and it is the lowest of those, the first among equals |
| Effect.TypingGame.FindTarget | game/src/typing/effect.c:71-81 | the search loop finds that target |
| Effect.TypingGame.UpdateKeypress | game/src/typing/effect.c:68-91 | one call turns the lowest falling letter with a pressed key upwards at 3.0 and releases that key, leaving interrupts disabled, or, if there is none, changes nothing and enables them; no other letter or key changes |
| Letters.HitOnceMeans | game/src/typing/effect.c:83-87 | what one hit does, in fields |
| Letters.HitAllMeans | game/src/typing/effect.c:69-91 | the whole key loop in closed form, independent of the order of its hits: of each text with a pressed key the lowest falling letter turns upwards at 3.0, no other letter changes, and exactly the keys with a falling letter are released |
| Letters.HitCountIsChanged | game/src/typing/effect.c:69-91 | it changes as many letters as it makes hits |
| Letters.HitAllCorrect | game/src/typing/effect.c:69-91 | the key loop makes one hit per key it releases, at most 26, each turning a falling letter upwards, and leaves no pressed key with a falling letter |
| Effect.TypingGame.HitPressedKeys | game/src/typing/game.c:54-55 | the loop over `update_keypress` terminates after at most 26 hits with interrupts enabled, having done exactly what the closed form says |
| Keyboard.PressedOne | game/src/typing/keyboard.c:5-21 | a scan code sets the flag of the one letter that has it, or none |
| Keyboard.CodesFollowRows | game/src/typing/keyboard.c:5-9 | the scan codes count along the three letter rows of a PC keyboard from 16, 30 and 44 |
| Keyboard.KeyState.PressKey | game/src/typing/keyboard.c:13-21 | the scanning loop does that |
| Keyboard.KeyState.ReleaseKey | game/src/typing/keyboard.c:23-27 | clears one flag |
| Keyboard.KeyState.QueryKey | game/src/typing/keyboard.c:29-33 | reads one flag |
| Keyboard.KeyState.KeyboardEvent | game/src/typing/keyboard.c:42-46 | records the code and sets the flag |
| GameLoop.StepKeeps | game/src/typing/game.c:36-91 | every interrupt and every main step keeps the invariant |
| GameLoop.SchedulerSafety | game/src/typing/game.c:42-84 | in every interleaving: no assertion fails, now <= tick, tick counts the timer interrupts taken, every tick below now was simulated once and in order, letters were created exactly at the multiples of HZ/3 and updates made exactly at the multiples of HZ/100, at every one up to the point the catch-up has reached, and the loop waits with interrupts enabled |
| GameLoop.LetterSafety | game/src/typing/game.c:60-68 | in every interleaving and for every HZ >= 100: created = hit + miss + on the screen; at most 14 letters are on the screen, so the pool of 1000 is never exhausted; falling letters keep 0.5 <= v < 1.0, hit ones v = -3.0 |
| GameLoop.FallsAtItsSpeed | game/src/typing/effect.c:53-55 | in every interleaving a falling letter is at its own velocity times the number of updates since it was created |
| GameLoop.FrameSkipping | game/src/typing/game.c:69-89 | in every interleaving: when a catch-up is over it has reached its target, and the screen is redrawn exactly if a multiple of HZ/30 was among the ticks caught up with; the displayed rate is at most 30 |
| GameLoop.FrameRate | game/src/typing/game.c:75-87 | in every interleaving the frame counter is the number of redraws since the last half second, and the rate displayed is twice the number of redraws in the half second before, plus one, but at most 30 |
| GameLoop.RedrawLogged | game/src/typing/game.c:86-89 | the redraws counted are those the loop makes |
| GameLoop.LifeSpan | game/src/typing/effect.c:53-64 | a letter on the screen was created less than 449 update periods ago |
| GameLoop.FewLetters | game/src/typing/game.c:60-68 | the invariant leaves room for at most 14 letters |
| GameLoop.TickCountsTimers | game/src/typing/game.c:12-15 | tick is the number of timer interrupts taken |
| GameLoop.KeyLoopEnds | game/src/typing/game.c:54-55 | after the first hit the key loop cannot be interrupted: whatever events arrive, it takes one step per letter hit (at most 26) and one more, then interrupts are enabled, the closed form has been reached and no pressed key has a falling letter |
| GameLoop.KeyLoopWhole | game/src/typing/game.c:51-55 | the whole key loop, entered with interrupts enabled: keys pressed before its first step count, and from then on it hits, of each text with a pressed key, the lowest falling letter, one per step, and ends with interrupts enabled and no pressed key with a falling letter |
| GameLoop.HitStep | game/src/typing/game.c:54-55 | each step of the loop, with interrupts enabled or not: it ends exactly if no falling letter has its key pressed; otherwise it hits the lowest of them |
| GameLoop.CatchUpProgress | game/src/typing/game.c:60-90 | once the keys are handled, every main step until the loop waits uses up exactly one unit of a fixed amount of work, and interrupts add none |
| GameLoop.WorkFalls | game/src/typing/game.c:42-90 | from any state but waiting, with the key loop included: every main step lowers the bound on the work left, no interrupt raises it, and the tick the loop heads for stays fixed |
| GameLoop.LoopWaitsAgain | game/src/typing/game.c:42-90 | from every reachable state and whatever events follow, the loop waits again within a bounded number of main steps (at most 5 per tick up to the one it heads for, and 30 more), having simulated every tick up to that one |
| GameLoop.EveryTickSimulated | game/src/typing/game.c:42-90 | from every reachable state and whatever events follow, every tick that has come, also during the current catch-up, is simulated within 5 main steps per tick still to be simulated and 58 more |
| GameLoop.MainLoop.Step | game/src/typing/game.c:42-90 | a step of the program on the real pool, list and flags is a step of the machine; the allocation inside cannot fail |
| GameLoop.InterruptStep | game/src/typing/game.c:12-28 | an interrupt that is taken counts one tick, or sets the flag of the letter with the scan code; one that is not taken does nothing |
| GameLoop.CreateStep | game/src/typing/game.c:60-64 | the creation step in fields |
| GameLoop.UpdateStep | game/src/typing/game.c:65-68 | the update step in fields |
| GameLoop.LoopStep | game/src/typing/game.c:42-89 | the other steps of the main loop, in fields |
| GameLoop.MainLoop.RunEvents | game/src/typing/game.c:36-91 | over any sequence of events the program does what the machine does |
| Paging.FillDirectory | kernel/src/memory/kvm.c:19-28 | the loop over directory entries maps the first 128 MB at 0 and at KOFFSET and nothing else |
| Paging.FillTables | kernel/src/memory/kvm.c:36-41 | the string-store loop makes exactly 32768 stores, each table entry once, and touches nothing else |
| Paging.InitPage | kernel/src/memory/kvm.c:12-61 | directory and tables are complete word by word, every entry present, writable and open to the user; CR3 is the directory, and no other word of memory changes |
| Paging.KernelWalk | kernel/src/memory/kvm.c:12-61 | the page walk sends va < 128 MB to va, [KOFFSET, KOFFSET + 128 MB) to va - KOFFSET, and nothing else anywhere |
| Paging.InitMm | kernel/src/memory/mm.c:36-47 | the user directory is the kernel half of the kernel directory, word by word; only its page changes |
| Paging.CreateVideoMapping | kernel/src/memory/vmem.c:13-30 | for any earlier directory: the video table holds 16 identity entries, entry 0 of the user directory names it, all present, writable and open to the user; nothing else changes |
| Paging.VideoKeepsOthers | kernel/src/memory/vmem.c:13-30 | for any earlier user directory: a translation from 4 MB on is unchanged if and only if its directory entry is absent, or its page table is neither page written, or is the video table and already agreed with what is written there, or is the user directory and, for entry 0, already led to the video table |
| Paging.VideoAliased | kernel/src/memory/vmem.c:13-30 | what such a translation becomes when its page table is the video table |
| Paging.UserWalk | kernel/src/memory/vmem.c:13-30 | the user walk is the kernel walk on the upper half, the identity on the 16 video pages, and undefined elsewhere |
| Paging.MapsAgree | kernel/src/memory/vmem.c:5-6 | the video pages cover [0xa0000, 0xa0000 + SCR_SIZE) |
| Paging.SetUpMappings | kernel/src/main.c:22-70 | after the three functions both walks are known for every 32-bit address |
| Loader.Program.Brk | kernel/src/memory/mm.c:18-34 | one brk call: the new break, which any nonzero request sets, the new maximum and the memory requested |
| Loader.BrkIsLast | kernel/src/memory/mm.c:18-29 | over any brk calls the break is the last nonzero one asked for |
| Loader.MaxIsLargest | kernel/src/memory/mm.c:18-26 | over any brk calls the maximum is the largest break asked for, or the one there was |
| Loader.BrkSafety | kernel/src/memory/mm.c:18-34 | over any brk calls the break is at most the maximum, the maximum never falls, and the requests tile its growth |
| Loader.TilesCoverOnce | kernel/src/memory/mm.c:18-25 | tiling means every address of the growth is requested exactly once and no other is |
| Loader.Program.CopySegment | kernel/src/elf/elf.c:58-67 | the segment is the bytes the disk holds at its offset, followed by zeros, and no other byte changes |
| Loader.Program.Load | kernel/src/elf/elf.c:34-80 | a wrong magic number stops it before anything; it runs away if and only if a visited segment is larger in the file than in memory; otherwise every byte of every segment visited is the byte of the disk at its offset, or zero behind the file size, other memory is unchanged, both breaks are at the largest segment end, one request per segment and one for the stack are made |
| Loader.SegmentRequestsInOrder | kernel/src/elf/elf.c:45-55 | the requests for segments are the ranges in memory of those loaded, in order, and no others |
| Loader.SegmentBreakMeans | kernel/src/elf/elf.c:72 | the end recorded for a segment is its last byte, modulo 2^32 |
| Loader.LargestBreakIsMaximum | kernel/src/elf/elf.c:72-73 | the break left is the maximum of the segment ends |
| Loader.EveryHeaderVisited | kernel/src/elf/elf.c:45-47 | the loop visits every program header if and only if there are at most two |
| Loader.VisitedIsTriangular | kernel/src/elf/elf.c:45-47 | iteration i visits header i (i + 1) / 2 |
| Loader.GrowthOverlaps | kernel/src/elf/elf.c:72-73 | over any brk calls after the loader: an address of a visited segment is requested again by brk if and only if it is the break the loader left, the break has grown, and a segment ends with that byte |
| Loader.BreakEndsSegment | kernel/src/elf/elf.c:71-73 | if no visited segment is empty, a segment ends with the break the loader left exactly if any segment was loaded |
| Irq.IrqTable.AddIrqHandle | kernel/src/irq/irq_handle.c:19-29 | registers at the head of the chain if and only if 0 <= irq < 16 and fewer than 32 handlers are registered; its own assertions reject only irq >= 16 and let the other cases index outside the tables |
| Irq.IrqTable.Chains | kernel/src/irq/irq_handle.c:11-29 | in every valid state the 16 chains of the tables are acyclic, pairwise disjoint, together the used pool prefix, and in the order of the registrations, newest first |
| Irq.ChainMembers | kernel/src/irq/irq_handle.c:20-29 | the chain of an interrupt holds exactly its registrations, so the chains are disjoint and cover the used pool |
| Irq.ChainFalls | kernel/src/irq/irq_handle.c:20-29 | chains are acyclic: indices strictly fall |
| Irq.ChainRoutines | kernel/src/irq/irq_handle.c:50-55 | the chain lists the registered routines, newest first |
| Irq.IrqTable.CallHandlers | kernel/src/irq/irq_handle.c:50-55 | the dispatch loop terminates and calls exactly the routines registered for the interrupt, once each, newest first |
| Irq.HandlersInOrder | kernel/src/irq/irq_handle.c:20-29 | the handlers of an interrupt are the routines of its registrations, exactly those, newest first |
| Irq.IrqTable.IrqHandle | kernel/src/irq/irq_handle.c:31-58 | the dispatch by interrupt number: system call, handlers, or stop |

## Left out

* NEMU's processor, caches, TLB, DRAM model and monitor: a separate program from the ones modelled here.
* Device and port code: serial port, i8259, IDE and ramdisk transfer, timer programming, screen
  drawing. What the disk returns for an offset and what the keyboard port returns are inputs.
* The run-time patching of `_vfprintf_internal` and `_ppfs_setargs`; the stream write at the end of
  `format_FLOAT`.
* Segment descriptors, IDT gates, the setting of CR0, and the system calls other than brk.
* NEMU-PAL and the other test cases, which would add only easy members.
* `mm_malloc`: the page tables it fills are not part of this model, and its signed length
  parameter is a natural number here.
* Wrap-around of `tick`, `now`, `hit` and `miss` after 2^31 counts.
- Irq.IrqTable.IrqHandle: handler routines are numbers in the order they are called; a routine that registers another handler during the dispatch is not described.
- Loader.Program.Load: what memory looks like after the loader ran away is not described, and headers past the 4096-byte buffer are read as if the buffer went on.
- Roots.Pow: negative arguments and those above 3055.8 are not covered. `pow` does not always have a result there (`Roots.CubeRootOfNegative`, `Roots.SquareVanishes`): above, the square of an iterate can wrap around to any number.
- Roots.Sqrt: negative arguments are not covered. They have no root, and `sqrt` does not always have a result (`Roots.SqrtOfNegative`).
- Integral.F: arguments for which 1 + 25 x^2 is not an int (from 36.21 on) are not covered; the addition overflows there.
