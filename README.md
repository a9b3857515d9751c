# Advent of Code 2022 puzzle solvers, modelled in Dafny

This project models the Rust solvers of Advent of Code 2022 for days 1 to 18 and day 20, with one `lib.rs` per day. Each day is its own Dafny module (`Day01` ... `Day20`, in `dayNN.dfy`), and each module proves properties of the model. A day takes the form its Rust code has:

- Solvers that are iterator chains and matches become functions and lemmas (days 2, 3, 4, 6, and the pure halves of days 1, 13, 14 and 15).
- Solvers that mutate state in loops become methods with loop invariants, proved against specification functions.
- Objects whose fields are updated in place become classes with `modifies` frames:
  - the `Grid` of day 8;
  - the `RopeModel` of day 9;
  - the `Device` of day 10;
  - the `Screen` of day 17, whose column heights are an `array`;
  - the `Ribbon` of day 20, a circular doubly linked list kept as a map from each entry to its (predecessor, successor) pair.
- Day 1's in-place sort and day 13's packet sort work on an `array`.

Shared modules:

- `Wrappers` (`wrappers.dfy`): the `Option` and `Result` types. A Rust panic (`unwrap`, `expect`, out-of-range indexing, `assert_eq!`) becomes an `Err` result.
- `Text` (`text.dfy`): Rust's `str::split`, `split` on a string pattern, `trim`, and `parse` for `usize` and `isize`, and the UTF-8 byte offsets that `str::len`, slicing and `match_indices` count in (`ByteLen`, and `Boundary`, the character at which a byte offset falls). `Text.Lines` is `split('\n')`, which is how the programs cut their input into lines; Rust's `str::lines`, which also drops a final '\r' and a last empty line, is not used. It includes the round-trip lemmas the parsers' proofs use.
- `Orderings` (`ordering.dfy`): `std::cmp::Ordering`.
- `Arith` (`arith.dfy`): facts about division and remainder.

Integers are unbounded. Where the program's integer width changes a result, the model writes the limit out: `isize` parsing on day 18, and unsigned subtraction on day 11. Elsewhere overflow is left out, as listed below.

The centrepiece is day 20's `Ribbon`:

- `Build` stitches the entries into a ring that describes the input order.
- `Mix` rewrites the links with the program's seven map writes. It is proved to leave exactly the links of the ring with the key moved its number of places. The other entries keep their cyclic order, and the length and head stay unchanged.
- `Index` walks the shorter way round. It is proved to read the value that many places after the zero entry.

## Model

| member | source | states |
|---|---|---|
| Day01.ParseAll | day01/src/lib.rs:42 | every line parses as a `usize` with the same value, or some line does not parse (the `unwrap` panic) |
| Day01.Groups | day01/src/lib.rs:40-41 | the groups are non-empty lists of lines without line breaks, and joining the lines with "\n" and the groups with "\n\n" gives back the trimmed input |
| Day01.GroupSums | day01/src/lib.rs:41-44 | each group's total is the sum of its parsed lines; an error exactly when some line is not a number |
| Day01.Max | day01/src/lib.rs:45 | the largest total is one of the totals and no total exceeds it |
| Day01.SolvePartOne | day01/src/lib.rs:39-47 | part one succeeds exactly when every line parses, and then answers the maximum group total |
| Day01.SortDescending | day01/src/lib.rs:78 | the array is sorted from largest to smallest and is a permutation of what it held |
| Day01.Sink | day01/src/lib.rs:78 | one insertion step leaves the prefix up to i sorted descending, the contents a permutation, and everything after i as it was |
| Day01.SolvePartTwo | day01/src/lib.rs:71-80 | the answer is the sum of the first three of a descending permutation of the totals (all of them when fewer than three) |
| Day01.FirstIsMax | day01/src/lib.rs:78-79 | the head of the descending order is the maximum, so part two starts from part one's answer |
| Day01.PartTwoAtLeastPartOne | day01/src/lib.rs:45-79 | the top-three sum is at least the largest total |
| Day01.SumAppend | day01/src/lib.rs:43 | the sum of a concatenation is the sum of the sums |
| Day02.NewHand | day02/src/lib.rs:80-87 | 'A'/'X', 'B'/'Y', 'C'/'Z' give rock, paper, scissors; every other letter is the unreachable panic |
| Day02.NewHandCode | day02/src/lib.rs:80-87 | the opponent's letter and the letter 23 places later both read back as the hand |
| Day02.WinnerOver | day02/src/lib.rs:90-96 | the winner over a hand compares greater than it |
| Day02.LoserOver | day02/src/lib.rs:99-105 | the loser over a hand compares less than it |
| Day02.CompareLaws | day02/src/lib.rs:108-134 | `partial_cmp` is equal only on equal hands and antisymmetric; greater means the winner over, less the loser over, and the two are inverses |
| Day02.RoundScore | day02/src/lib.rs:52-62 | a round scores 1 to 9, and the score is congruent to the hand's score mod 3 |
| Day02.ScorePartOne | day02/src/lib.rs:49-62 | a line scores exactly when its characters 0 and 2 are hand letters, and then the outcome of my hand (char 2) against theirs plus my hand's score |
| Day02.Planned | day02/src/lib.rs:167-172 | the hand chosen for a wanted outcome has that outcome against theirs |
| Day02.PlannedUnique | day02/src/lib.rs:167-172 | it is the only hand with that outcome |
| Day02.ScorePartTwo | day02/src/lib.rs:158-178 | a line scores exactly when char 0 is a hand and char 2 is 'X', 'Y' or 'Z', and then the wanted outcome plus the planned hand's score |
| Wrappers.SumOkBounds | day02/src/lib.rs:47-64 | summing values between lo and hi over n elements succeeds and totals between lo * n and hi * n |
| Day02.SolvePartOne | day02/src/lib.rs:46-65 | part one succeeds exactly when every line of the trimmed guide scores as two hands, and totals between n and 9n for n lines |
| Day02.SolvePartTwo | day02/src/lib.rs:155-181 | part two succeeds exactly when every line scores as a hand and a wanted outcome, and totals between n and 9n for n lines |
| Day03.CharScore | day03/src/lib.rs:52-65 | 'a'..'z' score 1..26, 'A'..'Z' score 27..52, and every other character has no score |
| Day03.CharScoreInverse | day03/src/lib.rs:52-65 | scores lie in 1..52 and tell items apart: the item of a score scores it back |
| Day03.Middle | day03/src/lib.rs:92-101 | the cut exists exactly when the trimmed line's UTF-8 length is even and some character boundary lies at half of it, and it is that boundary |
| Day03.ParseRucksack | day03/src/lib.rs:90-103 | the trimmed line is accepted exactly when its byte length is even and its half falls between two characters, and the pockets are the item sets of the characters before and after that byte |
| Day03.ParseRucksackAscii | day03/src/lib.rs:92-101 | on an ASCII line the byte cut is the character cut: accepted exactly when the length is even, halves at half the length |
| Day03.OddBytesRefused | day03/src/lib.rs:92-96 | "aéba" has four characters but five bytes, so it is refused |
| Day03.HalfInsideCharacter | day03/src/lib.rs:99-100 | "aéa" has four bytes and byte 2 falls inside the 'é', so slicing there is an error |
| Day03.PocketsCover | day03/src/lib.rs:99-102 | the two pockets merged are exactly the items of the trimmed line |
| Day03.CommonItem | day03/src/lib.rs:77-79 | an item exists exactly when the pockets intersect, and it is in both |
| Day03.ScoreLine | day03/src/lib.rs:44-47 | a line scores exactly when it parses, has a common item and that item has a priority; the score is the priority, in 1..52, of an item both pockets hold |
| Day03.SolvePartOne | day03/src/lib.rs:42-49 | part one succeeds exactly when every line scores, and totals between n and 52n for n lines |
| Day03.Triples | day03/src/lib.rs:132-134 | `windows(3).step_by(3)` gives the consecutive non-overlapping triples from the start, one per three elements |
| Day03.ScoreGroup | day03/src/lib.rs:137-146 | a group scores exactly when its three merged rucksacks share an item with a priority, and the score is that of an item in all three |
| Day03.BadgeTotal | day03/src/lib.rs:132-150 | the badges sum exactly when every group of three scores, and total between g and 52g for the g groups, one per three rucksacks |
| Day03.SolvePartTwo | day03/src/lib.rs:126-151 | part two succeeds exactly when every line is a rucksack and every group of three has a badge with a priority, and a success totals between g and 52g for the g groups, one per three lines |
| Day03.FewSacksScoreZero | day03/src/lib.rs:132-150 | fewer than three rucksacks form no group, so part two answers 0 |
| Day04.ParseRange | day04/src/lib.rs:42-44 | a range parses exactly when the text split on '-' has at least two pieces and the first two are numbers, which are its bounds |
| Day04.ParsePair | day04/src/lib.rs:41-47 | a line parses exactly when split on ',' it has at least two pieces that both parse as ranges, which are the pair |
| Day04.ParseShowRange | day04/src/lib.rs:42-44 | reading a printed range "a-b" gives the range back |
| Day04.ParseShowPair | day04/src/lib.rs:41-47 | reading a printed pair "a-b,c-d" gives the pair back |
| Day04.ContainsMeaning | day04/src/lib.rs:48-49 | for ranges with start ≤ end, part one's test holds exactly when every section of one range lies in the other |
| Day04.OverlapsMeaning | day04/src/lib.rs:88-100 | for ranges with start ≤ end, part two's test holds exactly when some section lies in both |
| Day04.OverlapLaws | day04/src/lib.rs:88-100 | the overlap test is symmetric, and containment implies overlap |
| Day04.SolvePartOne | day04/src/lib.rs:38-57 | part one succeeds exactly when every line is a pair of ranges, and counts at most one per line |
| Day04.SolvePartTwo | day04/src/lib.rs:76-103 | part two succeeds exactly when every line is a pair of ranges, and counts at most one per line |
| Day04.CountsOrdered | day04/src/lib.rs:39-56 | over well-formed lines both counts succeed and the containment count is at most the overlap count |
| Day04.PartOneAtMostPartTwo | day04/src/lib.rs:38-57 | part one's answer never exceeds part two's |
| Day05.TotalUpdate | day05/src/lib.rs:46-48 | replacing one stack changes the crate total by the difference in that stack's height |
| Day05.MoveAt | day05/src/lib.rs:40-48 | an order leaves the source `count` crates lower, puts the moved block (reversed for the one-at-a-time crane) on top of the destination and leaves every other stack as it was |
| Day05.MoveConserves | day05/src/lib.rs:46-48 | an order moves exactly `count` crates, keeps the destination's old crates underneath, and keeps the total number of crates |
| Day05.MoveTotal | day05/src/lib.rs:46-48 | an order keeps the total number of crates |
| Day05.CranesAgreeOnSingleCrates | day05/src/lib.rs:46-48 | for an order of at most one crate both cranes give the same stacks |
| Day05.MoveOneByOne | day05/src/lib.rs:39-48 | part one's in-place pop/push loop leaves the stacks exactly as the one-at-a-time move describes |
| Day05.Transfer | day05/src/lib.rs:46-48 | `count` pops and pushes take the top `count` crates off the source and put them reversed on the destination, touching nothing else |
| Day05.TransferStep | day05/src/lib.rs:47 | one more pop/push extends the moved, reversed block by the next crate |
| Day05.MoveTop | day05/src/lib.rs:47 | one pop off the source and one push of that crate onto the destination, nothing else changes |
| Day05.Moved | day05/src/lib.rs:40-48 | stacks that agree with an order's effect on source, destination and every other stack are the stacks after the order |
| Day05.MoveBlock | day05/src/lib.rs:131-148 | part two's two-phase move through the buffer leaves the stacks exactly as the block move describes |
| Day05.Unstack | day05/src/lib.rs:142-145 | popping `count` crates into the buffer lowers the source by `count` and leaves the buffer holding them top crate first |
| Day05.PopTop | day05/src/lib.rs:144 | one pop removes and returns the top crate of that stack only |
| Day05.Restack | day05/src/lib.rs:146-148 | emptying the buffer onto the destination puts the buffer's crates on it reversed, i.e. in their original order |
| Day05.RunStep | day05/src/lib.rs:38-48 | an order that cannot be carried out stops the run with "Incident"; otherwise the run goes on from the stacks after it |
| Day05.RunConserves | day05/src/lib.rs:38-50 | a run that succeeds keeps the number of stacks and the number of crates |
| Day05.RunsAgreeOnSingleCrates | day05/src/lib.rs:38-50 | when no order moves more than one crate, parts one and two end with the same stacks |
| Day05.Tops | day05/src/lib.rs:51-53 | the top crates exist exactly when no stack is empty, and are the last crate of each stack in order |
| Day05.FillLine | day05/src/lib.rs:76-80 | reading a drawing line succeeds exactly when every '[' at byte offset b has a character numbered b + 1 and b / 4 is below the label count |
| Day05.FillLineAscii | day05/src/lib.rs:76-80 | on an ASCII line byte offsets are positions: the line reads exactly when every '[' at position p has a character after it and p / 4 is below the label count |
| Day05.WideLetterShiftsStacks | day05/src/lib.rs:76-78 | in "[é] [b]" the second '[' is at byte 5, so stack 1 gets the ']' that is character 6, not the 'b' |
| Day05.FillStep | day05/src/lib.rs:76-79 | one character of a drawing line: a '[' at byte b pushes character b + 1 onto stack b / 4 or fails, anything else is skipped, and the next character starts after this one's bytes |
| Day05.FillLineCrates | day05/src/lib.rs:76-80 | each letter read from a line is inserted under the crates already in its stack |
| Day05.FillLinesColumns | day05/src/lib.rs:75-81 | after the whole drawing every stack holds its column's letters from the bottom line up, above what it held |
| Day05.Diagram | day05/src/lib.rs:61-72 | a parsed drawing has as many stacks as the last label of its last line says |
| Day05.DiagramColumns | day05/src/lib.rs:61-83 | every parsed stack holds the letters of its column from the bottom drawing line up, so its top crate is last |
| Day05.Push | day05/src/lib.rs:79 | inserting a crate at position 0 of one stack puts it under that stack's crates and changes no other stack |
| Day05.FillRow | day05/src/lib.rs:76-80 | the in-place loop over one drawing line, counting characters and bytes side by side, leaves the stacks as reading the line says, or reports its error |
| Day05.ParseDiagram | day05/src/lib.rs:61-83 | the line-by-line insertion loop gives the drawing's stacks |
| Day05.NumberAtDrop | day05/src/lib.rs:93-101 | the number read at a position is the leading number of the rest of the line |
| Day05.ParseShowOrder | day05/src/lib.rs:90-105 | reading a written "move N from S to D" gives the order back |
| Day05.ParseOrderOf | day05/src/lib.rs:92-103 | a line whose first five characters are its first five bytes, and whose numbers after them, after the first "from " and after the first "to " read as N, S and D, parses as that order |
| Day05.LocatedOf | day05/src/lib.rs:93-102 | the three numbers at the found positions make the order |
| Day05.FindsFrom | day05/src/lib.rs:96 | the first "from " of a written order is the one after the count |
| Day05.FindsTo | day05/src/lib.rs:99 | the first "to " of a written order is the one after the source stack |
| Day05.Solve | day05/src/lib.rs:32-54 | both parts: split at the first blank line, read drawing and orders, carry the orders out in place and read the top crates, with every failure an error |
| Day05.Rearrange | day05/src/lib.rs:38-50 | carrying out the orders in place on an array gives the run's stacks, stopping with an error at the first order that cannot be carried out |
| Day05.Carry | day05/src/lib.rs:39-48 | one order carried out in place by the chosen crane gives the stacks after that order |
| Day05.RunAt | day05/src/lib.rs:38 | the run from order k either stops at order k or goes on from the stacks after it |
| Day05.Example | day05/src/lib.rs:32-54 | on the puzzle's example stacks and orders the top crates are "CMZ" for part one and "MCD" for part two |
| Text.Chars | day06/src/lib.rs:72 | the set holds exactly the window's characters |
| Day06.AllDistinctPairwise | day06/src/lib.rs:72-73 | a window's character set has full size exactly when no two of its positions hold the same character |
| Day06.PairwiseSnoc | day06/src/lib.rs:72-73 | a window has no repeat exactly when its front has none and its last character is new |
| Day06.CardBound | day06/src/lib.rs:72 | a window's character set is never larger than the window |
| Day06.FourDistinctIsAllDistinct | day06/src/lib.rs:42-73 | on windows of four the six comparisons and the set-size test agree |
| Day06.FirstMarker | day06/src/lib.rs:35-47 | the answer is the end of a window that passes the test and no earlier window passes; none means no window passes |
| Day06.SolvePartOne | day06/src/lib.rs:34-48 | part one succeeds exactly when some window of four characters of the trimmed input passes the six comparisons, and answers the end of such a window |
| Day06.SolvePartTwo | day06/src/lib.rs:66-79 | part two succeeds exactly when some window of fourteen has fourteen different characters, and answers the end of such a window |
| Day06.PartOneMeaning | day06/src/lib.rs:34-48 | part one answers the end of the first window of four pairwise different characters of the trimmed input, and fails only when there is none |
| Day06.PartTwoMeaning | day06/src/lib.rs:66-79 | part two answers the end of the first window of fourteen pairwise different characters, and fails only when there is none |
| Day06.PartOneExample | day06/src/lib.rs:34-48 | on the puzzle's first example part one answers 7 |
| Day07.Components | day07/src/lib.rs:78-86 | a path's components are non-empty and contain no slash |
| Day07.ComponentsOfName | day07/src/lib.rs:86 | pushing a plain name adds exactly one component |
| Day07.EmptyArgumentStays | day07/src/lib.rs:84-87 | `cd ` with an empty argument leaves the model's working directory as it was (where the program's `PathBuf` gains a trailing slash) |
| Day07.ChangeDirBack | day07/src/lib.rs:79-87 | `cd name` goes one level down into name and `cd ..` comes back |
| Day07.ChangeDirUp | day07/src/lib.rs:75-81 | `cd /` goes to the root and `cd ..` goes to the parent, staying at the root |
| Day07.AddSize | day07/src/lib.rs:93-99 | adding a file grows exactly the working directory and each of its ancestors by its size, creating the missing entries |
| Day07.PrefixOfSnoc | day07/src/lib.rs:98 | the directories the pop loop visits are the path itself and those visited from its parent |
| Day07.AddSizeNested | day07/src/lib.rs:93-99 | adding a file keeps every recorded directory's ancestors recorded with totals at least as large |
| Day07.ListSizesNested | day07/src/lib.rs:90-101 | listing files keeps that nesting |
| Day07.ReplayNested | day07/src/lib.rs:66-105 | after any transcript, every directory's ancestors are recorded with totals at least as large |
| Day07.ListSizesRoot | day07/src/lib.rs:90-101 | listing files adds their total to the root |
| Day07.ReplayRoot | day07/src/lib.rs:66-105 | the root's total is the sum of every listed file size |
| Day07.ParseInput | day07/src/lib.rs:66-105 | the command loop builds exactly the replayed directory totals |
| Day07.List | day07/src/lib.rs:90-101 | the loop over one `ls` output adds each file in turn |
| Day07.Propagate | day07/src/lib.rs:93-99 | the entry/pop loop adds the size to the directory and every ancestor up to the root |
| Day07.SmallSumRemove | day07/src/lib.rs:51-53 | the sum of small totals does not depend on the order the directories are visited |
| Day07.SumSmall | day07/src/lib.rs:51-53 | the loop sums every total of at most 100000 |
| Day07.SmallestFreeing | day07/src/lib.rs:125-128 | the answer is a recorded total whose removal leaves less than 40000000 used, no smaller such total exists, and None only when no total qualifies |
| Day07.SolvePartOne | day07/src/lib.rs:49-54 | part one is the sum of the directory totals of at most 100000 |
| Day07.SolvePartTwo | day07/src/lib.rs:123-129 | part two fails exactly when the root has no total, and otherwise answers the smallest total whose removal frees enough room |
| Day07.RootLargest | day07/src/lib.rs:125-127 | the root is recorded whenever any directory is, with the largest total, so the subtraction never underflows |
| Day07.ListSizesTotal | day07/src/lib.rs:90-101 | listing several files adds their sum as one file would |
| Day07.ExampleReplay | day07/src/lib.rs:66-105 | the puzzle's example transcript records /, a, a/e and d with totals 48381165, 94853, 584 and 24933642 |
| Day07.ExamplePartOne | day07/src/lib.rs:49-54 | part one of the example is 95437 |
| Day07.ExamplePartTwo | day07/src/lib.rs:123-129 | part two of the example can only be 24933642 |
| Day08.Positions | day08/src/lib.rs:153-164 | the grid's positions are exactly the (row, column) pairs of its height and width |
| Day08.AheadInGrid | day08/src/lib.rs:205 | the steps ahead of a tree stay inside the grid exactly up to the edge |
| Day08.EdgeVisible | day08/src/lib.rs:159 | every tree on the edge is visible |
| Day08.SeenThrough | day08/src/lib.rs:54-60 | a tree is seen from a direction when a shorter tree already seen from that direction stands ahead with only shorter trees between |
| Day08.Grid.constructor | day08/src/lib.rs:148-167 | edge trees start visible, interior trees undecided, no direction recorded |
| Day08.Grid.Hide | day08/src/lib.rs:108-111 | only the tree at the position becomes hidden; an unknown position changes nothing |
| Day08.Grid.MarkVisible | day08/src/lib.rs:113-116 | only the tree at the position becomes visible with the given direction code |
| Day08.Look | day08/src/lib.rs:50-75 | the walk towards the edge reports seen exactly when every tree between the tree and that edge is shorter |
| Day08.AheadStep | day08/src/lib.rs:73-74 | one more step from i steps ahead is i + 1 steps ahead |
| Day08.BlockedAt | day08/src/lib.rs:62-66 | a tree at least as tall ahead hides the tree from that direction |
| Day08.ClearToEdge | day08/src/lib.rs:67-72 | only shorter trees up to the edge make the tree seen from that direction |
| Day08.EdgeReached | day08/src/lib.rs:67 | walking from an interior tree, the edge test first holds at the edge in the walking direction |
| Day08.SoundAt | day08/src/lib.rs:54-55 | a visible tree recorded with a direction's code is seen from that direction |
| Day08.SoundUpdate | day08/src/lib.rs:76-80 | recording a true direction or hiding a tree keeps every record truthful |
| Day08.Decide | day08/src/lib.rs:46-81 | the four walks decide the tree exactly as visible or hidden, changing only that tree and keeping the records truthful |
| Day08.Scan | day08/src/lib.rs:41-85 | the nested loops and the final count give the number of trees visible from outside |
| Day08.DecidedStep | day08/src/lib.rs:42-82 | deciding one tree moves the scan on by one row |
| Day08.DecidedColumn | day08/src/lib.rs:41-42 | finishing a column starts the next one |
| Day08.AllDecided | day08/src/lib.rs:85-122 | once every column is scanned, the trees counted visible are exactly the visible ones |
| Day08.Digits | day08/src/lib.rs:156-160 | a line parses exactly when it is all digits, into one height below 10 per character |
| Day08.ParseGrid | day08/src/lib.rs:149-164 | the input parses exactly when every trimmed line is all digits, into at least one row |
| Day08.DigitsShow | day08/src/lib.rs:156-160 | reading a written row of heights gives the heights back |
| Day08.ShownRows | day08/src/lib.rs:149 | one written line per row of heights |
| Day08.ParseShowGrid | day08/src/lib.rs:148-167 | reading a written rectangular grid of digits gives the grid back |
| Day08.ShownLines | day08/src/lib.rs:149 | the trimmed text of a written grid splits back into its rows |
| Day08.JoinEnds | day08/src/lib.rs:149 | the joined lines start with the first line's first character and end with the last line's last |
| Day08.SolvePartOne | day08/src/lib.rs:37-86 | part one succeeds exactly on square digit grids and answers the number of trees visible from outside |
| Day08.SightBounds | day08/src/lib.rs:205-215 | the count from the i-th tree on stops at the first tree at least as tall or at the edge |
| Day08.ViewingDistanceMeaning | day08/src/lib.rs:200-219 | the viewing distance counts the shorter trees up to and including the first at least as tall, or up to the edge, and is at least one off the edge |
| Day08.ScoreAlongStep | day08/src/lib.rs:220 | each direction multiplies the running product by its distance |
| Day08.ScoreProduct | day08/src/lib.rs:196-220 | the score is the fold `v * s` over the distances up, left, right and down |
| Day08.DistanceSign | day08/src/lib.rs:205-215 | a tree sees at least one tree in a direction exactly when it is not on that edge |
| Day08.ScoreSign | day08/src/lib.rs:192-222 | the score is positive exactly for interior trees |
| Day08.ProductSign | day08/src/lib.rs:220 | the folded product is positive exactly when all four factors are |
| Day08.Distance | day08/src/lib.rs:201-218 | the while loop counts exactly the viewing distance |
| Day08.ShorterStep | day08/src/lib.rs:209-214 | one more shorter tree extends the run of shorter trees |
| Day08.FirstBlocked | day08/src/lib.rs:205-215 | the viewing distance is the only count that stops at a blocking tree or the edge with only shorter trees before |
| Day08.ScenicScore | day08/src/lib.rs:194-220 | the score computed for a tree is its scenic score |
| Day08.Scores | day08/src/lib.rs:190-223 | the map holds exactly the interior trees, each with its scenic score |
| Day08.MaxValue | day08/src/lib.rs:225 | the maximum is a value of the map at least as large as every other, None only for an empty map |
| Day08.BestOfScores | day08/src/lib.rs:190-225 | the largest interior score is the best score of the whole grid, since edge trees score zero |
| Day08.SolvePartTwo | day08/src/lib.rs:185-226 | part two succeeds exactly on rectangular digit grids of at least 3 rows and 3 columns, and answers the best scenic score |
| Day09.ParseMove | day09/src/lib.rs:55-70 | a move parses exactly from "U", "D", "L" or "R" |
| Day09.ParseShowMove | day09/src/lib.rs:55-70 | reading a written move gives it back |
| Day09.FollowCloses | day09/src/lib.rs:106-114 | a knot moves at most one step, stays put exactly when it touches its leader, and ends touching a leader that was at most two away |
| Day09.Chain | day09/src/lib.rs:103-115 | the knot-by-knot pass keeps the number of knots |
| Day09.Step | day09/src/lib.rs:88-115 | one move keeps the number of knots |
| Day09.ChainAt | day09/src/lib.rs:103-115 | knot j follows the knot before it as already moved in this pass |
| Day09.StepAt | day09/src/lib.rs:90-115 | the head moves first and knot i + 1 follows the moved knot i |
| Day09.Pulled | day09/src/lib.rs:103 | the partly moved rope keeps the number of knots |
| Day09.PulledStep | day09/src/lib.rs:103-115 | the loop body moves knot i + 1 after the moved knot i, nothing else |
| Day09.ChainTaut | day09/src/lib.rs:103-115 | a leader that moved one step from touching drags a taut rope into a taut rope |
| Day09.StepTaut | day09/src/lib.rs:88-121 | a move keeps every knot touching the next |
| Day09.Start | day09/src/lib.rs:80-86 | a new rope has followers + 1 knots at the origin and no visited positions |
| Day09.Repeat | day09/src/lib.rs:123-128 | n moves keep the number of knots |
| Day09.Run | day09/src/lib.rs:36-43 | the whole input keeps the number of knots |
| Day09.StepRecords | day09/src/lib.rs:120 | a move only adds the new tail position to the visited set |
| Day09.RepeatRecords | day09/src/lib.rs:123-128 | n moves only grow the visited set, record the tail when n > 0 and keep the rope taut |
| Day09.RunRecords | day09/src/lib.rs:36-44 | over the whole input the visited set only grows, the rope stays taut and the last tail position is recorded once any move is made |
| Day09.RopeModel.constructor | day09/src/lib.rs:80-86 | the new rope is the start rope |
| Day09.RopeModel.Apply | day09/src/lib.rs:88-121 | moving the head, the follow loop and the record leave the rope as one step of the model |
| Day09.RopeModel.ApplyAll | day09/src/lib.rs:123-128 | the repeat loop leaves the rope as count steps of the model |
| Day09.ParseLine | day09/src/lib.rs:37-41 | a parsed line starts with its written move and a space |
| Day09.ParseShowLine | day09/src/lib.rs:37-41 | reading a written line "M N" gives the move and count back |
| Day09.RunSnoc | day09/src/lib.rs:43 | running one more line applies its moves after the earlier ones |
| Day09.Solve | day09/src/lib.rs:34-45 | succeeds exactly when every line parses, and answers the number of positions the last knot visits |
| Day09.SolvePartOne | day09/src/lib.rs:34-45 | part one counts the positions of the tail of a two-knot rope |
| Day09.SolvePartTwo | day09/src/lib.rs:151-162 | part two counts the positions of the tail of a ten-knot rope |
| Day10.Run | day10/src/lib.rs:37-47 | running a program never changes the sampling interval |
| Day10.RunSnoc | day10/src/lib.rs:37-47 | running one more line executes it after the earlier ones |
| Day10.Device.constructor | day10/src/lib.rs:64-69 | a new device has register 1, no cycle passed, no strengths, an empty screen and first sample at cycle 20 |
| Day10.Device.UpdateScreen | day10/src/lib.rs:71-80 | trying the three sprite offsets lights the beam's pixel exactly when the sprite covers the beam's column |
| Day10.Device.PassCycle | day10/src/lib.rs:82-88 | one cycle passes and, on a counting device, a sampled cycle appends register times cycle while at most `howmany` strengths are held |
| Day10.Device.AddX | day10/src/lib.rs:90-96 | addx takes two cycles with the old register, drawing after each on a recording device, then adds its operand |
| Day10.Device.Spit | day10/src/lib.rs:98-100 | the answer exists exactly when the strengths' sum is not negative, and is that sum |
| Day10.PrintMapRows | day10/src/lib.rs:143-149 | the rendering has six lines of 40 characters, '#' exactly at the lit pixels |
| Day10.LitMapMeaning | day10/src/lib.rs:71-80 | pixel (y, x) is lit exactly when it was drawn while the three-pixel sprite covered column x |
| Day10.LitMapSnoc | day10/src/lib.rs:73-77 | drawing one more pixel lights it exactly when the sprite covers its column |
| Day10.RecordingStep | day10/src/lib.rs:90-96 | on a recording device noop draws one pixel and addx draws two with the old register, then adds |
| Day10.RunRecording | day10/src/lib.rs:123-138 | part two's device ends with the cycle count of the trace, the final register, no strengths, and exactly the pixels whose cycles the sprite covered lit |
| Day10.SampledSnoc | day10/src/lib.rs:84-87 | one more cycle appends its strength exactly when it is sampled and the cap is not reached |
| Day10.CountingStep | day10/src/lib.rs:42-45 | on a counting device noop passes one cycle and addx two with the old register, then adds |
| Day10.RunCounting | day10/src/lib.rs:35-47 | part one's device ends with the trace's cycle count and final register, an empty screen and the capped samples of the trace |
| Day10.Signals | day10/src/lib.rs:84-87 | one strength per sampled cycle among those passed |
| Day10.Take | day10/src/lib.rs:85 | the first k elements, or all when there are fewer |
| Day10.DueBound | day10/src/lib.rs:85 | exactly the cycles 20, 20 + every, ... that were passed are counted |
| Day10.DueStep | day10/src/lib.rs:84-85 | passing cycle n adds one sampled cycle exactly when n is 20 plus a multiple of the interval |
| Day10.SignalsSnoc | day10/src/lib.rs:84-87 | one more cycle appends register times cycle exactly when it is sampled |
| Day10.SampledMeaning | day10/src/lib.rs:85-86 | the capped sampling keeps the first howmany + 1 strengths, since the cap test is `len() <= howmany` |
| Day10.ParseInstr | day10/src/lib.rs:39-45 | a line whose first word is "noop" is a noop; any other line parses exactly when its second word is a signed number |
| Day10.ParseShowInstr | day10/src/lib.rs:39-45 | reading a written instruction gives it back |
| Day10.Execute | day10/src/lib.rs:37-47 | the line loop leaves the device as the program's run |
| Day10.SolvePartOne | day10/src/lib.rs:34-50 | part one is the sum of the strengths of the first seven sampled cycles 20, 60, 100, ..., failing when that sum is negative or a line does not parse |
| Day10.LitPixels | day10/src/lib.rs:71-80 | a pixel is lit in the screen map exactly when the sprite covered it while it was drawn |
| Day10.ShowsLit | day10/src/lib.rs:143-149 | rendering the lit map gives six 40-column lines with '#' exactly at the lit pixels |
| Day10.SolvePartTwo | day10/src/lib.rs:122-141 | part two succeeds exactly when every line parses and renders the pixels the sprite covered, pixel p drawn with the register of cycle p + 1 |
| Day11.Apply | day11/src/lib.rs:98-115 | the operation fails exactly when it subtracts a constant larger than the level (the unsigned underflow) |
| Day11.ApplyOld | day11/src/lib.rs:100-106 | `old` as the operand acts as the level itself: doubling, zero, squaring |
| Day11.Worry | day11/src/lib.rs:49 | relief succeeds exactly when the operation does and the modulus is not zero |
| Day11.Target | day11/src/lib.rs:50-52 | the target is the first monkey exactly when the level is divisible, and a zero divisor fails |
| Day11.Thrown | day11/src/lib.rs:48-54 | one throw per item held |
| Day11.ThrownAt | day11/src/lib.rs:48-54 | throwing succeeds exactly when every item can be inspected, and throw j is the inspection of item j |
| Day11.Deliver | day11/src/lib.rs:57-60 | delivering keeps the number of monkeys |
| Day11.TurnOf | day11/src/lib.rs:40-60 | a turn keeps the number of monkeys |
| Day11.Turns | day11/src/lib.rs:39-61 | the first k turns keep the number of monkeys |
| Day11.RoundOf | day11/src/lib.rs:39-61 | a round keeps the number of monkeys |
| Day11.RoundsOf | day11/src/lib.rs:38-63 | any number of rounds keeps the number of monkeys |
| Day11.ThrownSnoc | day11/src/lib.rs:48-54 | throwing one more item appends its inspection |
| Day11.DeliverSnoc | day11/src/lib.rs:57-60 | delivering one more throw appends it to its target's queue, failing for a missing target |
| Day11.ThrowAll | day11/src/lib.rs:47-54 | the pop-front loop builds exactly the list of throws |
| Day11.DeliverAll | day11/src/lib.rs:57-60 | the push-back loop delivers exactly the list of throws |
| Day11.Turn | day11/src/lib.rs:40-60 | counting, throwing and delivering give the monkey's turn |
| Day11.TurnsStuck | day11/src/lib.rs:58 | once a turn fails, the rest of the round fails |
| Day11.RoundsStuck | day11/src/lib.rs:38 | once a round fails, later rounds fail |
| Day11.TurnsNext | day11/src/lib.rs:39 | turn k + 1 is taken on the monkeys the first k turns left |
| Day11.Round | day11/src/lib.rs:39-61 | the loop over the monkeys gives the round |
| Day11.Rounds | day11/src/lib.rs:38-63 | the rounds loop gives n rounds |
| Day11.DeliverMeaning | day11/src/lib.rs:57-60 | delivering succeeds exactly when every target exists, and each monkey then holds its old queue followed by the levels thrown to it, in order |
| Day11.ThrownMeaning | day11/src/lib.rs:48-54 | each item yields one throw carrying its relieved level, to the first target exactly when that level is divisible |
| Day11.TurnMeaning | day11/src/lib.rs:40-60 | a successful turn empties the monkey, counts the items it held, and routes every throw to the back of its target's queue, nothing else changing |
| Day11.TotalUpdate | day11/src/lib.rs:57-60 | replacing one monkey changes the item total by the difference in its queue length |
| Day11.DeliverTotal | day11/src/lib.rs:57-60 | delivering adds one item per throw |
| Day11.TurnConserves | day11/src/lib.rs:40-60 | a turn neither makes nor loses items |
| Day11.TurnsConserve | day11/src/lib.rs:39-61 | the first k turns keep the number of items |
| Day11.RoundsConserve | day11/src/lib.rs:38-63 | any number of rounds keeps the number of items |
| Day11.Divisors | day11/src/lib.rs:224-225 | one divisor per monkey |
| Day11.ScaledDivides | day11/src/lib.rs:224-228 | a multiple of a multiple of d is a multiple of d |
| Day11.ScaledBy | day11/src/lib.rs:224-228 | q times d is a multiple of d |
| Day11.DistinctProductDivides | day11/src/lib.rs:224-228 | the product of the distinct divisors is positive and each divisor divides it |
| Day11.ApplyCongruent | day11/src/lib.rs:98-115 | add and multiply keep levels congruent modulo L |
| Day11.InspectCongruent | day11/src/lib.rs:242-246 | an item reduced modulo L goes where the exact level goes, with a congruent level |
| Day11.ThrownCongruent | day11/src/lib.rs:241-247 | a monkey's throws with reduction and with exact levels go to the same targets with congruent levels |
| Day11.SameAppend | day11/src/lib.rs:250-253 | appending congruent levels keeps two monkeys alike |
| Day11.DeliverCongruent | day11/src/lib.rs:250-253 | delivering alike throws to alike monkeys fails together and otherwise keeps them alike |
| Day11.TurnCongruent | day11/src/lib.rs:233-253 | a turn with reduction and an exact turn fail together and otherwise keep the monkeys alike |
| Day11.TurnsCongruent | day11/src/lib.rs:232-254 | the first k turns keep the monkeys alike |
| Day11.RoundsCongruent | day11/src/lib.rs:231-256 | rounds with part two's reduction and exact rounds fail together and otherwise agree on every count and rule, with congruent levels |
| Day11.ReducedIsExact | day11/src/lib.rs:224-256 | with add/multiply rules and positive divisors, reducing modulo the product of the distinct divisors keeps the counts exact rounds give |
| Day11.Counts | day11/src/lib.rs:64-66 | one inspection count per monkey |
| Day11.SortedTopTwo | day11/src/lib.rs:67-69 | the first two of the descending sort are the two largest counts |
| Day11.Business | day11/src/lib.rs:64-69 | the answer exists exactly for at least two monkeys, and is the product of the two largest counts |
| Day11.Number | day11/src/lib.rs:153-178 | a field reads exactly when it is an unsigned number |
| Day11.FieldAfter | day11/src/lib.rs:151-182 | `split(sep).nth(1)` of a written line is the field after the separator |
| Day11.NumberAfterShown | day11/src/lib.rs:176-186 | the number written after a separator reads back |
| Day11.ItemsShown | day11/src/lib.rs:150-154 | the written item list reads back as the items |
| Day11.OperatorShown | day11/src/lib.rs:160-165 | each written operator reads back |
| Day11.OperandShown | day11/src/lib.rs:166-172 | each written operand reads back |
| Day11.OperationShown | day11/src/lib.rs:156-173 | a written "old op operand" reads back as the operation |
| Day11.HeaderLineFlat | day11/src/lib.rs:148 | the header line holds no line break |
| Day11.ItemsLineFlat | day11/src/lib.rs:150 | the items line holds no line break |
| Day11.OperationLineFlat | day11/src/lib.rs:156 | the operation line holds no line break |
| Day11.DivisorLineFlat | day11/src/lib.rs:176 | the divisor line holds no line break |
| Day11.TargetLineFlat | day11/src/lib.rs:181-186 | the target lines hold no line break |
| Day11.ItemsLineShown | day11/src/lib.rs:150-151 | the field after ": " on the items line is the written list |
| Day11.OperationLineShown | day11/src/lib.rs:156-157 | the field after "new = " is the written operation |
| Day11.DivisorLineShown | day11/src/lib.rs:176-178 | the divisor reads back after " by " |
| Day11.TargetLineShown | day11/src/lib.rs:181-186 | the target reads back after "monkey " |
| Day11.ParseMonkey | day11/src/lib.rs:188-194 | a parsed monkey has inspected nothing |
| Day11.ParseShowMonkey | day11/src/lib.rs:144-196 | reading a written monkey block gives the monkey back with a zero count |
| Day11.SolvePartOne | day11/src/lib.rs:33-70 | part one succeeds exactly when the blocks parse, twenty rounds with division by three succeed and there are two monkeys, and answers the product of the two largest counts |
| Day11.SolvePartTwo | day11/src/lib.rs:213-263 | with add/multiply rules and positive divisors, part two answers exactly what 10000 rounds on unreduced levels give |
| Day12.Neighbours | day12/src/lib.rs:78-80 | the four orthogonal neighbours, in the order the search tries them |
| Day12.ReachSeed | day12/src/lib.rs:57-67 | the cells reached in no steps are exactly the seeds |
| Day12.ReachStep | day12/src/lib.rs:85-89 | a step from a cell reached in k steps reaches its target in k + 1 |
| Day12.ReachPred | day12/src/lib.rs:85-89 | a cell first reached in k steps has a predecessor reached in k - 1 |
| Day12.ReachMono | day12/src/lib.rs:68-92 | what is reached in j steps is reached in any k >= j |
| Day12.CostBound | day12/src/lib.rs:70-74 | no walk reaches a cell in fewer steps than its optimum |
| Day12.OptimalRoutes | day12/src/lib.rs:72-74 | the optimum is the length of some walk and no walk is shorter |
| Day12.IsolatedSeed | day12/src/lib.rs:76 | a seed off the map reaches only itself |
| Day12.RouteReach | day12/src/lib.rs:68-92 | a walk of n cells reaches its end in n - 1 steps |
| Day12.AnswersRoutes | day12/src/lib.rs:53-94 | a found count is the length of a shortest walk from a seed to the end, and "no solution" means there is no such walk |
| Day12.Remove | day12/src/lib.rs:70 | taking entry i out leaves every other entry |
| Day12.InitInv | day12/src/lib.rs:57-67 | the seeded heap, visited set and zero costs satisfy the search invariant |
| Day12.ReachVisited | day12/src/lib.rs:82-89 | a cell reachable in lo steps is visited once the cells reachable in lo - 1 are expanded |
| Day12.PopQueued | day12/src/lib.rs:70 | popping keeps every visited, unexpanded cell on the heap or open |
| Day12.PopCosted | day12/src/lib.rs:70 | a least entry popped leaves the others within one step of its cost |
| Day12.PopLayered | day12/src/lib.rs:68-70 | when the least cost rises, every cell reachable in fewer steps is expanded |
| Day12.PopStep | day12/src/lib.rs:70 | popping a least entry keeps the search invariant with its cell open |
| Day12.PushExact | day12/src/lib.rs:85-88 | a cell pushed from the open cell is first reached in one more step |
| Day12.PushQueued | day12/src/lib.rs:87-88 | a pushed cell is on the heap |
| Day12.PushStep | day12/src/lib.rs:82-89 | pushing an unvisited steppable neighbour keeps the search invariant |
| Day12.CloseStep | day12/src/lib.rs:78-91 | once its neighbours are visited, the open cell counts as expanded |
| Day12.QueuedEmpty | day12/src/lib.rs:68 | with the heap empty every visited cell is expanded |
| Day12.Exhausted | day12/src/lib.rs:68-93 | with the heap empty every reachable cell is expanded, so the end is unreachable |
| Day12.PopMin | day12/src/lib.rs:70 | the popped entry is the least in (steps, column, row) order, as the min-heap gives it |
| Day12.SeedHeap | day12/src/lib.rs:57-63 | one cost-0 entry for each seed and no other entry |
| Day12.FewerLeft | day12/src/lib.rs:87 | visiting a new cell leaves fewer unvisited cells of the map |
| Day12.PushesSnoc | day12/src/lib.rs:87-88 | one more push of an unvisited steppable neighbour extends the pushes |
| Day12.GrownNone | day12/src/lib.rs:78-91 | expanding without pushing leaves heap and visited set as they were |
| Day12.GrownMore | day12/src/lib.rs:78-91 | expanding only adds cells, and adding some leaves fewer cells unvisited |
| Day12.ExpandPush | day12/src/lib.rs:82-89 | pushing the k-th neighbour keeps the loop invariant of the expansion |
| Day12.Expand | day12/src/lib.rs:76-91 | trying the four neighbours pushes every unvisited one on the map at most one higher, at one more step, and visits all cells u can step to |
| Day12.Search | day12/src/lib.rs:68-93 | the search answers the fewest steps from a seed to the end, or fails exactly when the end is unreachable |
| Day12.Height | day12/src/lib.rs:108-117 | 'S' has the height of 'a', 'E' that of 'z', any other character its own code |
| Day12.LastNext | day12/src/lib.rs:108-113 | reading one more cell keeps the last 'S' or 'E' read so far |
| Day12.LastRow | day12/src/lib.rs:104-106 | the end of a row is the start of the next |
| Day12.FilledNext | day12/src/lib.rs:106-117 | reading one more cell adds it with its height |
| Day12.ReadNext | day12/src/lib.rs:106-117 | reading a cell updates start, end and grid as the loop body does |
| Day12.FilledRow | day12/src/lib.rs:104-106 | the end of a row is the start of the next |
| Day12.FromStr | day12/src/lib.rs:99-122 | the map holds every character as a cell of its height, with the last 'S' as start and the last 'E' as end, (0, 0) when missing |
| Day12.Seeds | day12/src/lib.rs:57-67 | part one starts from the start alone, part two from every cell of height 'a' |
| Day12.SmallestPath | day12/src/lib.rs:53-94 | the answer is the fewest steps from the seeds to the end, or an error exactly when the end is unreachable |
| Day12.SolvePartOne | day12/src/lib.rs:41-44 | part one answers the fewest steps from the start to the end of the parsed map |
| Day12.SolvePartTwo | day12/src/lib.rs:140-142 | part two answers the fewest steps from any cell of height 'a' |
| Day13.ISize | day13/src/lib.rs:57-61 | every item counts at least one node |
| Day13.SSize | day13/src/lib.rs:102-105 | a one-item list has the size of its item |
| Day13.ItemSizeBound | day13/src/lib.rs:102-105 | an item is no larger than the list holding it |
| Day13.ItemsEqReflexive | day13/src/lib.rs:117-124 | every packet equals itself |
| Day13.ItemEqReflexive | day13/src/lib.rs:63-81 | every item equals itself |
| Day13.ItemsEqSymmetric | day13/src/lib.rs:117-124 | packet equality is symmetric |
| Day13.ItemEqSymmetric | day13/src/lib.rs:63-81 | item equality is symmetric, the integer promotion included |
| Day13.ItemsCmpEqual | day13/src/lib.rs:128-176 | the comparison answers Equal exactly for equal packets, so `Ord` and `PartialEq` agree |
| Day13.ItemCmpEqual | day13/src/lib.rs:85-100 | the item comparison answers Equal exactly for equal items |
| Day13.ItemsCmpSwap | day13/src/lib.rs:128-169 | exchanging the packets reverses the comparison |
| Day13.ItemCmpSwap | day13/src/lib.rs:85-100 | exchanging the items reverses the comparison |
| Day13.ItemsCmpSkip | day13/src/lib.rs:133-139 | a common prefix of equal items does not change the comparison |
| Day13.Lexicographic | day13/src/lib.rs:128-169 | after a common prefix of equal items the first unequal pair decides, and the list that runs out first is the smaller |
| Day13.Promotion | day13/src/lib.rs:71-77 | an integer and the one-element list holding it are interchangeable on either side of the comparison and the equality |
| Day13.Zip | day13/src/lib.rs:132 | pairs the items position by position up to the shorter length |
| Day13.ComparePackets | day13/src/lib.rs:129-169 | the worklist loop computes the lexicographic packet comparison |
| Day13.Closing | day13/src/lib.rs:204-212 | a matching bracket lies after the scan start and within the text |
| Day13.ParsePacket | day13/src/lib.rs:180-224 | the character loop reads the packet the recursive reading defines, failing exactly where it does |
| Day13.CollectNested | day13/src/lib.rs:202-212 | the bracket-counting loop collects the text up to the matching ']', and fails ("No next") exactly when there is none |
| Day13.ShowItem | day13/src/lib.rs:57-61 | a written item is never empty |
| Day13.WalkConcat | day13/src/lib.rs:204-211 | the bracket depth after two texts is that after the first, continued over the second |
| Day13.ClosingWalk | day13/src/lib.rs:204-211 | text that keeps a bracket open is scanned over |
| Day13.WalkDigits | day13/src/lib.rs:204-211 | digits do not change the bracket depth |
| Day13.WalkShowItems | day13/src/lib.rs:204-211 | a written item list closes every bracket it opens |
| Day13.WalkShowItem | day13/src/lib.rs:204-211 | a written item closes every bracket it opens |
| Day13.ClosingShowPacket | day13/src/lib.rs:202-212 | the bracket matching a written packet's opening one is at its end |
| Day13.ItemsOverDigits | day13/src/lib.rs:190-192 | a run of digits only extends the pending number |
| Day13.ItemsShow | day13/src/lib.rs:189-221 | reading a written item list gives back its items |
| Day13.ItemsShowNumber | day13/src/lib.rs:190-221 | a written number followed by the rest reads as that number and the rest |
| Day13.ShowItemsCons | day13/src/lib.rs:189-216 | a written list is its first item, then a comma and the rest |
| Day13.NumberThenComma | day13/src/lib.rs:193-197 | a comma ends the pending number and pushes it |
| Day13.NumberAtEnd | day13/src/lib.rs:218-221 | a number pending at the end is pushed |
| Day13.ItemsShowNested | day13/src/lib.rs:198-214 | a written nested packet followed by the rest reads as that packet and the rest |
| Day13.ParseShow | day13/src/lib.rs:180-224 | reading a written packet gives the packet back |
| Day13.InOrder | day13/src/lib.rs:46-52 | a group answers exactly when each of its lines parses and there are two, and says whether the first packet is smaller |
| Day13.IndexSum | day13/src/lib.rs:43-54 | the sum exists exactly when every group answers |
| Day13.SolvePartOne | day13/src/lib.rs:42-55 | part one succeeds exactly when every blank-line group answers, and is at most 1 + 2 + ... + n for n groups, reaching it when every pair is in order |
| Day13.IndexSumBounds | day13/src/lib.rs:43-54 | the sum is at most 1 + 2 + ... + n, and reaches it when every pair is in order |
| Day13.NonEmpty | day13/src/lib.rs:244-249 | exactly the non-empty lines are kept |
| Day13.Position | day13/src/lib.rs:257-258 | the index of the first packet equal to the given one, None when there is none |
| Day13.DividersFound | day13/src/lib.rs:253-258 | both dividers are found in a list that holds them |
| Day13.DividersDiffer | day13/src/lib.rs:250-251 | [[2]] is smaller than [[6]], so they are different packets |
| Day13.SwapKeepsMultiset | day13/src/lib.rs:255 | exchanging two neighbours keeps the packets |
| Day13.InsertingSwap | day13/src/lib.rs:255 | exchanging a packet with a bigger predecessor moves the insertion point back and keeps the packets |
| Day13.Sink | day13/src/lib.rs:255 | inserting a[i] into the sorted front keeps the packets and leaves the front one longer and sorted |
| Day13.Swap | day13/src/lib.rs:255 | exchanges a[k] and a[k + 1], nothing else |
| Day13.SortPackets | day13/src/lib.rs:255 | the packets end in order and are a permutation of those before |
| Day13.ParseLines | day13/src/lib.rs:244-249 | reading every line gives the parsed list, or an error when some line fails |
| Day13.SortedKey | day13/src/lib.rs:250-258 | the key is the product of the dividers' positions in a neighbour-sorted permutation of the packets plus both dividers |
| Day13.SolvePartTwo | day13/src/lib.rs:243-259 | part two succeeds exactly when every non-empty line parses, and answers the decoder key of the sorted packets with both dividers |
| Day14.ParseNumber | day14/src/lib.rs:108 | a coordinate reads exactly when it is a signed number |
| Day14.ParseNode | day14/src/lib.rs:106-112 | a node is stored as (y, x) from the first two numbers of "x,y" |
| Day14.ParseNodeShown | day14/src/lib.rs:106-112 | a written node "x,y" reads back as (y, x) |
| Day14.SplitShown | day14/src/lib.rs:107 | the comma of a written node separates its two numbers |
| Day14.ShowIntNoComma | day14/src/lib.rs:107 | a written number holds no comma |
| Day14.SegmentEnds | day14/src/lib.rs:114-132 | the first node is rock; the second is exactly when the segment is horizontal or vertical, which can then be drawn from either end |
| Day14.PathPointsExact | day14/src/lib.rs:114-133 | a path's rock is exactly the points of the segments between consecutive nodes |
| Day14.TraceExact | day14/src/lib.rs:101-136 | the rock is exactly the points of some segment of some path |
| Day14.SettleWithin | day14/src/lib.rs:56-98 | a grain moves only down, at most one column per row, never into a resting grain, reaches the floor row exactly when it does not rest, and rests only when all three cells below are blocked |
| Day14.AdvancedTrans | day14/src/lib.rs:59-96 | states only advance, over several grains too |
| Day14.Mark | day14/src/lib.rs:66-86 | recording a blocked move keeps every record truthful and only advances the cell |
| Day14.Rest | day14/src/lib.rs:91-93 | a grain resting where all three cells below are blocked adds just that cell to the resting grains |
| Day14.DropSand | day14/src/lib.rs:50-99 | one grain lands where the plain falling rule puts it, adding that cell to the resting grains when it rests; meeting a grain at the source is the error |
| Day14.PourNext | day14/src/lib.rs:39-47 | grain n + 1 is poured on the first n and adds its cell when it rests |
| Day14.NewResting | day14/src/lib.rs:56-93 | a grain resting off the source takes a new cell of the triangle under it |
| Day14.MaxRow | day14/src/lib.rs:38 | the row is the deepest row holding rock |
| Day14.AddFloor | day14/src/lib.rs:203-205 | the floor row from lo to hi is added to the rock |
| Day14.FloorRowUnder | day14/src/lib.rs:203-205 | a floor row one column past the triangle on each side lies under it |
| Day14.FloorCatches | day14/src/lib.rs:56-98 | over such a floor every grain starting inside the triangle rests |
| Day14.GrainCaught | day14/src/lib.rs:206-215 | over such a floor every grain rests or stops at the source |
| Day14.Pour | day14/src/lib.rs:43 | one call pours the next grain on the earlier ones and leaves the states matching the resting grains |
| Day14.PourUntilBelow | day14/src/lib.rs:39-47 | the count is the number of grains resting before the first reaches the floor row, and an error means a grain rested at the source |
| Day14.SolvePartOne | day14/src/lib.rs:33-48 | part one counts the grains resting before the first falls past the deepest rock row; it fails only on bad input, no rock, or a grain at the source |
| Day14.RestsSnoc | day14/src/lib.rs:46 | one more resting grain extends the run of resting grains |
| Day14.PourUntilSource | day14/src/lib.rs:206-215 | over a wide enough floor the count is that of the first grain to rest at the source, which the loop always reaches |
| Day14.SolvePartTwo | day14/src/lib.rs:194-216 | part two adds the floor two rows under the deepest rock and counts the grains until one rests at the source; it fails only on bad input or no rock |
| Day14.PourWithFloor | day14/src/lib.rs:203-215 | the floor row is added and grains are counted until one rests at the source |
| Day14.AwaySnoc | day14/src/lib.rs:214 | one more grain off the source extends the run |
| Day15.Distance | day15/src/lib.rs:91-93 | the Manhattan distance is never negative and is zero exactly at the same point |
| Day15.DistanceSymmetric | day15/src/lib.rs:91-93 | the distance does not depend on the order of its arguments |
| Day15.SensorOf | day15/src/lib.rs:48-51 | a sensor's radius is the distance to its closest beacon, so the beacon lies on the edge of its reach |
| Day15.Sensors | day15/src/lib.rs:41-53 | one sensor per reading, in input order |
| Day15.MinLeft | day15/src/lib.rs:62-64 | the smallest `x - radius` over the sensors: no sensor reaches further left, and one reaches exactly that far |
| Day15.MaxRight | day15/src/lib.rs:65-67 | the largest `x + radius` over the sensors: no sensor reaches further right, and one reaches exactly that far |
| Day15.RowHitsNext | day15/src/lib.rs:71-79 | scanning one more column adds that column exactly when a sensor reaches it and it holds no beacon |
| Day15.CountRow | day15/src/lib.rs:69-81 | the count is the number of columns between the bounds that some sensor reaches and that hold no beacon |
| Day15.ScanComplete | day15/src/lib.rs:62-71 | every excluded cell of the row lies between the scan bounds, so the scan misses none |
| Day15.SolvePartOne | day15/src/lib.rs:40-82 | fails exactly without sensors; otherwise counts the cells of row 2 000 000 that a sensor reaches and that hold no beacon |
| Day15.AsWrittenFamilies | day15/src/lib.rs:134-143 | the first and third pushed cells lie one step past the reach; the second and fourth lie 2 * delta further out |
| Day15.AsWrittenOffRing | day15/src/lib.rs:138 | for a sensor at the origin of radius 1 the loop pushes (-3, 1), off the ring, and never pushes the ring cell (-1, 1) |
| Day15.RingStep | day15/src/lib.rs:134-143 | with the ring walked as intended, the cells pushed at a delta are exactly the ring cells reached at that delta |
| Day15.ReachedBound | day15/src/lib.rs:134 | every ring cell is reached at a delta between 0 and the radius |
| Day15.EdgePositions | day15/src/lib.rs:133-144 | the walk pushes every cell one step past the sensor's reach and no other, four per delta |
| Day15.NearOneNext | day15/src/lib.rs:128-145 | taking one more sensor's ring adds exactly the cells on that ring |
| Day15.EdgeCases | day15/src/lib.rs:128-150 | with each ring walked as intended, the candidates are exactly the ring cells that lie in the square and outside every sensor's reach |
| Day15.SingleCase | day15/src/lib.rs:154 | the candidate set has one element exactly when some candidate is the only one |
| Day15.SolvePartTwo | day15/src/lib.rs:110-158 | over the corrected candidates, succeeds exactly when a single candidate exists, and then returns x * 4 000 000 + y of that cell |
| Day16.NameLeRefl | day16/src/lib.rs:166 | Rust's order on valve names is reflexive |
| Day16.NameLeTotal | day16/src/lib.rs:166 | any two names are ordered one way or the other |
| Day16.NameLeTrans | day16/src/lib.rs:166 | the order on names is transitive |
| Day16.WalkExtend | day16/src/lib.rs:171-178 | a walk followed by one more tunnel is a walk one step longer |
| Day16.PopMax | day16/src/lib.rs:170 | the heap pops an entry no other entry exceeds in (steps, name) order |
| Day16.Follow | day16/src/lib.rs:172-180 | the inner loop stops exactly when b is a tunnel of the popped valve; otherwise every tunnel ends visited, and each newly visited valve is queued once at one step more |
| Day16.Expanded | day16/src/lib.rs:169-180 | following the popped valve's tunnels keeps the search invariant, with that valve now done |
| Day16.WalkStays | day16/src/lib.rs:169-181 | a walk from the start never leaves a set of valves whose tunnels all lead back into it |
| Day16.Exhausted | day16/src/lib.rs:169-182 | once the heap empties without meeting b, no walk leads from a to b |
| Day16.Stray | day16/src/lib.rs:171 | looking up a queued valve missing from the maze happens only if a is missing or a tunnel leads nowhere |
| Day16.Round | day16/src/lib.rs:169-180 | one turn ends with a walk to b, or with the missing-valve panic, or keeps the invariant with fewer unvisited valves or a shorter heap |
| Day16.Distance | day16/src/lib.rs:161-183 | 0 from a valve to itself; otherwise the length of a walk from a to b; the panic happens only when a is missing, a tunnel leads nowhere, or b cannot be reached |
| Day16.Flowing | day16/src/lib.rs:56-60 | the valves with a positive flow rate, each once |
| Day16.Reduce | day16/src/lib.rs:56-61 | the valves with a positive flow rate, each once, followed by AA |
| Day16.EmptyRows | day16/src/lib.rs:63-67 | an empty row for every valve of the list |
| Day16.Put | day16/src/lib.rs:75-78 | the time is stored under both orders of the pair and no other row changes |
| Day16.PutRows | day16/src/lib.rs:75-78 | storing a pair keeps a row per valve, with entries only for other valves, and loses no entry |
| Day16.PutSymmetric | day16/src/lib.rs:75-78 | storing a pair both ways keeps the table symmetric |
| Day16.PutMeasured | day16/src/lib.rs:74-78 | storing the length of a walk keeps every entry the length of a walk |
| Day16.FilledNext | day16/src/lib.rs:69-71 | the pair (i, j) is filled after its turn of the inner loop |
| Day16.FilledRow | day16/src/lib.rs:68-69 | a finished row of the outer loop moves on to the next |
| Day16.UnlinkedPair | day16/src/lib.rs:74 | a pair whose `distance` panics shows the list holds two valves with no walk between them |
| Day16.BuildTable | day16/src/lib.rs:63-80 | the table holds, for every two distinct valves, a symmetric entry that is the length of a walk between them; it fails only when such a walk is missing |
| Day16.FilledTable | day16/src/lib.rs:68-80 | once every pair is filled, each row holds every other valve |
| Day16.RateSumRemove | day16/src/lib.rs:91 | the sum of flow rates does not depend on the order the valves are taken in |
| Day16.TotalRate | day16/src/lib.rs:91 | `max_power` is the sum of every valve's flow rate |
| Day16.Stop | day16/src/lib.rs:150-151 | stopping leaves no minutes, releases what the state's key promised, and changes nothing else |
| Day16.OpenBounds | day16/src/lib.rs:118-125 | opening a valve never lowers the state's key nor raises its pruning bound |
| Day16.MoveBounds | day16/src/lib.rs:137-142 | walking keeps the key and never raises the pruning bound |
| Day16.StopBounds | day16/src/lib.rs:150-151 | stopping never raises the pruning bound |
| Day16.StepBounds | day16/src/lib.rs:108-155 | no transition lowers the key `minutes * power + pressure`, and none raises `pressure + max_power * minutes` |
| Day16.DerivableNext | day16/src/lib.rs:117-155 | a transition out of a reachable state leads to a reachable state |
| Day16.PopBest | day16/src/lib.rs:213-225 | the heap pops a state of greatest key |
| Day16.Offer | day16/src/lib.rs:126-129 | a state is pushed exactly when it was not seen, and is seen afterwards |
| Day16.MovesInAdd | day16/src/lib.rs:133-146 | one more valve of the row adds its walk when it fits in the minutes left |
| Day16.SuccessorsNext | day16/src/lib.rs:117-155 | the states offered after a pop are exactly its transitions: open, walk, stop |
| Day16.SuccessorLive | day16/src/lib.rs:117-155 | each offered state is reachable, stands at AA or a tabled valve, and has fewer minutes left |
| Day16.ExtendsOffer | day16/src/lib.rs:126-129 | offering a state appends at most one unseen state to the heap |
| Day16.MoveOne | day16/src/lib.rs:137-146 | one walk of the row is offered if it fits in the minutes left |
| Day16.MoveAll | day16/src/lib.rs:133-147 | every walk of the row within the minutes left is offered, each unseen state appended once |
| Day16.Expand | day16/src/lib.rs:112-155 | after a pop the search offers exactly the successors, appending the unseen ones |
| Day16.Pushed | day16/src/lib.rs:112-155 | expanding a state keeps the heap reachable and lowers the termination measure |
| Day16.FinishedAdd | day16/src/lib.rs:99-105 | a state out of time raises `best` to its pressure when greater, keeping `best` the greatest pressure seen |
| Day16.Search | day16/src/lib.rs:87-158 | `best` is no less than the pressure of any finished state popped, and is 0 or that of one of them; the lookup panic happens only at a valve missing from the maze or the table |
| Day16.UnlinkedMalformed | day16/src/lib.rs:68-80 | a failed distance shows the maze is malformed |
| Day16.Misplaced | day16/src/lib.rs:113-133 | a popped state stands outside the maze or the table only when AA is missing |
| Day16.Achieved | day16/src/lib.rs:99-158 | the answer is 0 or the pressure of a reachable state with no minutes left |
| Day16.SolvePartOne | day16/src/lib.rs:43-159 | part one fails only on a malformed maze, and its answer is a pressure some sequence of moves reaches in 30 minutes |
| Day17.Tetrominos | day17/src/lib.rs:139-161 | five shapes, each at most four rows tall and five columns wide, touching its own lowest row and leftmost column |
| Day17.ParseJet | day17/src/lib.rs:290-296 | a character is a jet exactly when it is `<` or `>`, and writing the jet gives the character back |
| Day17.ParseShowJets | day17/src/lib.rs:35-38 | reading a written jet pattern gives the pattern back |
| Day17.ShowParseJets | day17/src/lib.rs:35-38 | a pattern that parses is written back as the same text |
| Day17.Blown | day17/src/lib.rs:196-231 | a jet keeps the rock inside the chamber, on the same rows |
| Day17.BlownSafe | day17/src/lib.rs:196-231 | a jet keeps the rock's shape and never moves it into a fallen rock |
| Day17.DropSafe | day17/src/lib.rs:234-272 | a step down where nothing is in the way keeps the shape, lowers the rock and keeps it clear of fallen rocks |
| Day17.SpawnPlacement | day17/src/lib.rs:180-186 | a spawned shape lies inside the chamber |
| Day17.Settle | day17/src/lib.rs:189-274 | the jet counter stays below the pattern length and the rock stays in the chamber |
| Day17.SettleRests | day17/src/lib.rs:189-274 | a settled rock keeps its shape, has not risen, cannot step down, and never passes through a fallen rock |
| Day17.MaxOfIsMax | day17/src/lib.rs:277-279 | the highest column bounds every column and is one of them |
| Day17.MinOfIsMin | day17/src/lib.rs:170 | the lowest column is at most every column and is one of them |
| Day17.NormalizedShape | day17/src/lib.rs:167-176 | normalizing keeps the differences between columns and puts the lowest column at 0 |
| Day17.RaiseCovers | day17/src/lib.rs:250-254 | freezing never lowers a column, leaves every column above each rock in it, and raises a column only to just above one of its rocks |
| Day17.CellsSnoc | day17/src/lib.rs:256 | memorizing one more unit adds just that unit |
| Day17.CounterMoved | day17/src/lib.rs:193-194 | moving the jet counter keeps the board well formed |
| Day17.InitialWellFormed | day17/src/lib.rs:130-164 | the new screen is well formed and its tower has height 0 |
| Day17.SpawnedPlacement | day17/src/lib.rs:180-186 | the next rock's lowest unit is three rows above the tower and its leftmost unit in column 2 |
| Day17.SpawnedClear | day17/src/lib.rs:180-186 | a new rock never appears inside the fallen rocks |
| Day17.LandingRests | day17/src/lib.rs:189-274 | the next rock lands in the shape it appeared in, at rest, outside the fallen rocks |
| Day17.FrozenWellFormed | day17/src/lib.rs:249-265 | freezing keeps the board well formed and never lowers the tower |
| Day17.AfterFall | day17/src/lib.rs:178-275 | one fall keeps the board well formed |
| Day17.FallCounts | day17/src/lib.rs:262-265 | each fall counts one more rock and moves the shape counter on modulo 5 |
| Day17.FallFreezes | day17/src/lib.rs:249-257 | each fall occupies exactly the units of the landed rock, all of them empty before |
| Day17.FallMonotone | day17/src/lib.rs:253 | a fall never lowers the tower |
| Day17.RestsLow | day17/src/lib.rs:234-246 | a rock at rest has a unit no higher than the tower was |
| Day17.FallGrowth | day17/src/lib.rs:178-275 | the tower grows by at most four rows with each rock |
| Day17.Run | day17/src/lib.rs:43-45 | after n falls exactly n more rocks are at rest, and the tower has grown by at most four rows per rock |
| Day17.Screen.constructor | day17/src/lib.rs:130-164 | a new screen holds the initial board for the given jets |
| Day17.Screen.NormalizedHeights | day17/src/lib.rs:167-176 | the columns less the lowest one, which is 0, with the differences between columns kept |
| Day17.Screen.Height | day17/src/lib.rs:277-279 | the tower height bounds every column and is the height of one of them |
| Day17.Screen.JetApplicable | day17/src/lib.rs:196-218 | the jet applies exactly when no unit of the rock is at the wall it is pushed towards or beside a fallen rock |
| Day17.Screen.CanGoDown | day17/src/lib.rs:234-246 | the rock can go down exactly when no unit is on the floor or above a fallen rock |
| Day17.Screen.Push | day17/src/lib.rs:196-231 | the rock after one jet is the model's blown rock |
| Day17.Screen.Freeze | day17/src/lib.rs:249-257 | the columns are raised over the rock and its units memorized, with the counters unchanged |
| Day17.Screen.DropRock | day17/src/lib.rs:189-274 | the rock lands where the model settles it, and only the jet counter changes |
| Day17.Screen.Fall | day17/src/lib.rs:178-275 | the screen after `fall` is the model's board after one fall |
| Day17.Screen.Simulate | day17/src/lib.rs:43-45 | n falls take the screen to the model's board after n rocks |
| Day17.ShiftAll | day17/src/lib.rs:224-230 | every unit moves one column in the jet's direction |
| Day17.DropAll | day17/src/lib.rs:271-272 | every unit moves one row down |
| Day17.SolvePartOne | day17/src/lib.rs:34-47 | succeeds exactly on a nonempty, well-formed jet pattern, with the tower height after 2022 rocks |
| Day17.CommonDivisorsRem | day17/src/lib.rs:110-114 | a step of Euclid's algorithm keeps the common divisors |
| Day17.Gcd | day17/src/lib.rs:109-116 | the result divides both inputs and every common divisor divides it; it is 0 only for two zeros |
| Day17.GcdWithFive | day17/src/lib.rs:52 | the gcd of a positive number and 5 is 5 when 5 divides it and 1 otherwise |
| Day17.MinimalCycleMultiple | day17/src/lib.rs:52 | the minimal cycle is a positive multiple of both the pattern length and 5 |
| Day17.MinimalCycleLeast | day17/src/lib.rs:52 | no smaller positive number is a multiple of both |
| Day17.MinimalCycleFromGcd | day17/src/lib.rs:52 | `(len * 5) / gcd(len, 5)` is the minimal cycle |
| Day17.MinimalCycleOf | day17/src/lib.rs:51-52 | the least common multiple of the pattern length and 5, and 0 for an empty pattern |
| Day17.Skipped | day17/src/lib.rs:92-97 | the first cycle, one repeat, the remainder and the skipped repeats add up to the total |
| Day17.SimulatedFelled | day17/src/lib.rs:61-101 | the simulated board holds the first cycle, one repeat and the remainder |
| Day17.EstimateAccounts | day17/src/lib.rs:92-106 | the rocks simulated and the rocks skipped account for all rocks |
| Day17.SimulatedFewer | day17/src/lib.rs:99-101 | fewer than two repeats are simulated after the first cycle |
| Day17.CycleFits | day17/src/lib.rs:72 | every repeat the loop tries fits, with the first cycle, in the total |
| Day17.CycleDivision | day17/src/lib.rs:92-97 | the program's product, quotient and remainder are the model's |
| Day17.CycleSplit | day17/src/lib.rs:92-97 | the full repeats and the remainder make up the rocks after the first cycle |
| Day17.ExtrapolationSum | day17/src/lib.rs:106 | the program's final sum is the extrapolation over the skipped repeats |
| Day17.Combine | day17/src/lib.rs:86-106 | the final sum is the extrapolation from the three heights |
| Day17.CyclesStep | day17/src/lib.rs:74-77 | one more minimal cycle of rocks after k cycles gives k + 1 cycles |
| Day17.RepeatsWhen | day17/src/lib.rs:79-80 | the skyline repeats exactly when the normalized heights equal those after the first cycle |
| Day17.FindCycle | day17/src/lib.rs:71-84 | returns the first number of cycles after which the skyline repeats, or 0 when none of the tried ones does |
| Day17.Extrapolation | day17/src/lib.rs:86-106 | the value is the estimate from the first repeat |
| Day17.NoRepeatFound | day17/src/lib.rs:72-92 | without a repeat no estimate exists (the program divides by zero) |
| Day17.NoCycleFits | day17/src/lib.rs:54-72 | when no whole cycle fits no estimate exists (the program underflows) |
| Day17.RepeatFound | day17/src/lib.rs:80-82 | a first repeat that fits makes the height extrapolable |
| Day17.FirstCycleScreen | day17/src/lib.rs:58-66 | a new screen after one minimal cycle, with its normalized skyline and height |
| Day17.ExtrapolateFrom | day17/src/lib.rs:70-106 | succeeds exactly when some repeat fits, with the estimate from the first repeat |
| Day17.SolveCyclical | day17/src/lib.rs:49-107 | succeeds exactly when some repeat of the skyline fits in the total, and then returns the estimate from the first repeat |
| Day17.SolvePartTwo | day17/src/lib.rs:315-323 | the same, for a parsed pattern and a trillion rocks |
| Day18.AdjacentSides | day18/src/lib.rs:46-51 | the six offsets reach exactly the face-adjacent cubes |
| Day18.AdjacentSide | day18/src/lib.rs:46-51 | every adjacent cube lies across one of the six offsets |
| Day18.SidesDistinct | day18/src/lib.rs:46-50 | different offsets lead to different cubes |
| Day18.FacesOfNext | day18/src/lib.rs:51-55 | trying one more offset counts one more face exactly when that neighbour is a droplet |
| Day18.FacesAdd | day18/src/lib.rs:44-57 | a new cube adds exactly its own touching faces |
| Day18.TouchingOfNext | day18/src/lib.rs:51-55 | one more offset adds one adjacent cube exactly when that neighbour is in the set |
| Day18.FacesOfTouching | day18/src/lib.rs:46-56 | for one cube, counting touching faces and counting adjacent cubes agree |
| Day18.TouchingOfAll | day18/src/lib.rs:46-56 | the six offsets of a cube find every adjacent cube of the set |
| Day18.FacesTouching | day18/src/lib.rs:43-57 | the touching faces and the adjacent pairs are equally many |
| Day18.FacesOfOpen | day18/src/lib.rs:46-56 | each face of a cube is either touching or open |
| Day18.FacesAndOpen | day18/src/lib.rs:59 | touching and open faces make up six per cube, so `6 * len - connections` counts the open faces |
| Day18.MirrorBack | day18/src/lib.rs:103-108 | crossing a face and then the opposite face returns to the cube |
| Day18.AirFacesOpen | day18/src/lib.rs:110 | every face of an air cube on the droplet is an open droplet face, so part two never exceeds part one |
| Day18.SurfaceArea | day18/src/lib.rs:42-59 | the count is six faces per cube less the faces covered by another cube of the droplet |
| Day18.BoxCells | day18/src/lib.rs:111-113 | the cubes of the box are exactly those within its bounds |
| Day18.Outside | day18/src/lib.rs:92-122 | the outside cubes are exactly those the air reaches from the start |
| Day18.ReachesAir | day18/src/lib.rs:110-113 | every reached cube is air inside the box |
| Day18.ReachesStart | day18/src/lib.rs:94-95 | the start is reached from itself when it is air |
| Day18.ReachesSide | day18/src/lib.rs:108-118 | the air reached from a cube also reaches its air neighbours |
| Day18.WalkInside | day18/src/lib.rs:98-122 | a walk that starts inside a set closed under air steps ends inside it |
| Day18.Exhausted | day18/src/lib.rs:98 | once the queue is empty, the seen cubes are exactly the outside air |
| Day18.QueuedPop | day18/src/lib.rs:100-101 | popping the front of the queue moves it from queued to visited |
| Day18.QueuedPush | day18/src/lib.rs:115-118 | an unseen cube joins the back of the queue once |
| Day18.ClosedAdd | day18/src/lib.rs:103-120 | a cube whose six air neighbours are seen joins the closed cubes |
| Day18.Visit | day18/src/lib.rs:100-120 | visiting a cube counts its faces on the droplet and queues each unseen air neighbour inside the box |
| Day18.OutsideFacesOpen | day18/src/lib.rs:124 | the outside air touches no more faces than the droplet has open |
| Day18.ExteriorSurface | day18/src/lib.rs:92-124 | the count is the number of droplet faces touched by the air reachable from the start |
| Day18.ParseCoord | day18/src/lib.rs:37 | a coordinate parses exactly when it is a number within isize |
| Day18.ParseCube | day18/src/lib.rs:36-39 | a line parses exactly when every comma-separated piece parses and there are at least three; the first three are the cube |
| Day18.ShowIntPlain | day18/src/lib.rs:36 | a printed number holds no comma |
| Day18.ParseShowCube | day18/src/lib.rs:34-40 | a printed cube within isize parses back to itself |
| Day18.ParseDroplets | day18/src/lib.rs:34-40 | the input parses exactly when every line does, one cube per line |
| Day18.Droplet | day18/src/lib.rs:40 | the set of the cubes, repeats counted once |
| Day18.SolvePartOne | day18/src/lib.rs:33-60 | fails exactly on a bad line; otherwise six faces per cube less the adjacent pairs, which is the number of open faces |
| Day18.Least | day18/src/lib.rs:85-89 | the least coordinate along an axis bounds every cube and belongs to one |
| Day18.Most | day18/src/lib.rs:86-90 | the greatest coordinate along an axis bounds every cube and belongs to one |
| Day18.GrownBox | day18/src/lib.rs:111-113 | every cube lies strictly inside the grown box |
| Day18.StartIsAir | day18/src/lib.rs:94 | the flood fill starts on air inside the box |
| Day18.SolvePartTwo | day18/src/lib.rs:77-125 | fails exactly on a bad line; otherwise the droplet faces the outside air reaches, never more than the open faces |
| Day20.Clefs | day20/src/lib.rs:34-38 | every value is paired with its input position, so the keys are distinct |
| Day20.ChainedFromAll | day20/src/lib.rs:63 | the position-by-position check links every entry to its cyclic neighbours |
| Day20.UniqueDistinct | day20/src/lib.rs:58-60 | no key repeats, checked either way |
| Day20.LinkedDescribes | day20/src/lib.rs:62-66 | the ribbon's invariant is that its links describe the cyclic order |
| Day20.IndexOf | day20/src/lib.rs:75-107 | the first position holding the key |
| Day20.ZeroIndex | day20/src/lib.rs:122 | the first position whose value is 0 |
| Day20.Rotate | day20/src/lib.rs:87-91 | the same ring read from another entry |
| Day20.MoveAfter | day20/src/lib.rs:94-106 | the key is taken out and put back right after the entry k places further on, the others keeping their order |
| Day20.Steps | day20/src/lib.rs:79-86 | the walk is at most len - 1 steps |
| Arith.QuotRem | day20/src/lib.rs:81 | quotient and remainder by repeated subtraction split the number and are `/` and `%` |
| Day20.StepsCongruent | day20/src/lib.rs:79-86 | walking the step count forward agrees with walking the value, forwards or backwards, modulo len - 1 |
| Arith.DivUnique | day20/src/lib.rs:81 | Euclidean quotient and remainder are fixed by their defining equation |
| Day20.Mixed | day20/src/lib.rs:75-107 | mixing one key keeps the same distinct entries |
| Day20.RotateDistinct | day20/src/lib.rs:87-91 | reading from another entry keeps the entries and their distinctness |
| Day20.MoveAfterDistinct | day20/src/lib.rs:94-106 | moving the key keeps the entries and their distinctness |
| Day20.MoveAfterDegenerate | day20/src/lib.rs:79-91 | a step count of 0 or len - 1 puts the key back between the same two entries |
| Day20.MixedPlacesKey | day20/src/lib.rs:87-98 | after a mix the key sits right after the entry that was that many successors ahead |
| Day20.MixedKeepsOthers | day20/src/lib.rs:99-106 | every other entry keeps its cyclic order |
| Day20.MoveAfterKeepsOthers | day20/src/lib.rs:99-106 | leaving out the moved key, the order is unchanged |
| Day20.MixAll | day20/src/lib.rs:42-45 | a round of mixes keeps the same distinct entries |
| Day20.MixRounds | day20/src/lib.rs:196-198 | any number of rounds keeps the same distinct entries |
| Day20.MixRoundsNext | day20/src/lib.rs:196-198 | one more round of mixes is one more round |
| Day20.AtWraps | day20/src/lib.rs:147-149 | positions wrap around the ring |
| Day20.RotSourceNeighbours | day20/src/lib.rs:87-91 | neighbours in the rotated ring are neighbours in the ring |
| Day20.RotateDescribes | day20/src/lib.rs:62-66 | the links describe the ring read from any entry |
| Day20.RelinkShape | day20/src/lib.rs:94-106 | the seven writes put the key between the target and its successor and join the key's old neighbours |
| Day20.RelinkKeys | day20/src/lib.rs:97-106 | the seven writes only overwrite keys already there |
| Day20.RelinkWritten | day20/src/lib.rs:97-106 | the links of the key and of its new and old neighbours after the writes |
| Day20.RelinkUntouched | day20/src/lib.rs:97-106 | every other entry keeps its links |
| Day20.MovedDescribes | day20/src/lib.rs:94-106 | the rewritten links describe the moved ring |
| Day20.RelinkMoves | day20/src/lib.rs:94-106 | with a step count in 1..len-2 the writes leave exactly the links of the moved ring |
| Day20.MixRelinks | day20/src/lib.rs:75-107 | relinking after the entry that many successors ahead gives links for exactly the mixed ring |
| Day20.Successor | day20/src/lib.rs:90 | following a successor link moves one place along the ring |
| Day20.LinkAt | day20/src/lib.rs:94-95 | every entry's links are its cyclic neighbours |
| Day20.RelinkDetachesAtZeroSteps | day20/src/lib.rs:94-98 | with 0 steps the writes leave the key out of the ring: its old successor no longer points back to it |
| Day20.RelinkDetachesAtFullTurn | day20/src/lib.rs:94-106 | with len - 1 steps the key's predecessor skips it |
| Day20.PositionsDistinct | day20/src/lib.rs:58-60 | keys numbered by their own positions are distinct |
| Day20.WindowStep | day20/src/lib.rs:112-120 | each window of three links its middle entry to its two neighbours, a key not written before |
| Day20.WrittenEarlier | day20/src/lib.rs:112-120 | every key written so far is a middle entry of an earlier window |
| Day20.Stitched | day20/src/lib.rs:125-131 | linking the first and last entries closes the ring |
| Day20.StitchedDescribes | day20/src/lib.rs:109-134 | after the windows and the stitching the links describe the input order |
| Day20.StitchedKeys | day20/src/lib.rs:130-131 | closing the ring adds the two end entries as keys |
| Day20.StitchedValues | day20/src/lib.rs:125-131 | closing the ring links every entry to its cyclic neighbours |
| Day20.Ribbon.Len | day20/src/lib.rs:69-71 | the length is the number of entries, at least two |
| Day20.Ribbon.Build | day20/src/lib.rs:109-134 | the ribbon describes the entries in input order, with the first zero entry as head |
| Day20.Ribbon.Walk | day20/src/lib.rs:87-91 | the entry that many successors after the key |
| Day20.Ribbon.Splice | day20/src/lib.rs:94-106 | the seven writes leave the ribbon describing the mixed ring |
| Day20.Ribbon.Mix | day20/src/lib.rs:75-107 | mixing keeps the ribbon valid, leaves a 0 untouched, and gives the mixed ring |
| Day20.Ribbon.MixFixed | day20/src/lib.rs:75-107 | the same for every step count, the degenerate ones leaving the order alone |
| Day20.Ribbon.Grove | day20/src/lib.rs:49-55 | the sum of the values 1000, 2000 and 3000 places after the zero entry |
| Day20.Ribbon.Index | day20/src/lib.rs:147-167 | the value idx places after the head, walking forwards or backwards, whichever is shorter |
| Day20.Ribbon.Forward | day20/src/lib.rs:153-157 | the entry that many successors after the head |
| Day20.Ribbon.Backward | day20/src/lib.rs:160-165 | the entry that many predecessors before the head |
| Day20.WalkTarget | day20/src/lib.rs:149-165 | walking the rounded index forwards, or its complement backwards, ends where walking the index does |
| Day20.Scaled | day20/src/lib.rs:187-189 | every value times the decryption key |
| Day20.MixEach | day20/src/lib.rs:42-45 | one round mixes every key once, in input order |
| Day20.MixRoundsOn | day20/src/lib.rs:196-198 | the ribbon after the given number of rounds |
| Day20.Solve | day20/src/lib.rs:194-208 | the grove sum of the ring after the given rounds |
| Day20.SolvePartOne | day20/src/lib.rs:33-56 | the grove sum after one round of mixing |
| Day20.SolvePartTwo | day20/src/lib.rs:186-209 | the grove sum after ten rounds over the values times the decryption key |
| Text.Split | day04/src/lib.rs:39-41 | `str::split`: at least one piece, none holding the separator |
| Text.JoinSplit | day04/src/lib.rs:39-41 | joining the pieces with the separator gives the text back |
| Text.SplitJoin | day04/src/lib.rs:39-41 | splitting pieces joined by a separator they do not contain gives the pieces back |
| Text.SplitOnJoin | day01/src/lib.rs:40 | splitting on a multi-character separator and joining gives the text back |
| Text.Trim | day01/src/lib.rs:40 | `str::trim`: a slice of the text that neither starts nor ends with white space, with only white space (Unicode White_Space) cut before and after it |
| Text.ParseNat | day01/src/lib.rs:42 | `parse::<usize>` succeeds exactly on digits with an optional `+` |
| Text.ParseInt | day18/src/lib.rs:37 | `parse::<isize>` succeeds exactly on digits with an optional sign, and a `-` negates the digits' value |
| Text.ShowNatValue | day01/src/lib.rs:42 | the digits written for a number have that value |
| Text.ParseShow | day18/src/lib.rs:37 | parsing a written number gives it back |
| Text.Utf8Len | day03/src/lib.rs:92 | a character takes one to four bytes, and one exactly when it is ASCII |
| Text.ByteLen | day03/src/lib.rs:92 | `str::len`: at least one byte and at most four per character |
| Text.ByteLenConcat | day03/src/lib.rs:92 | the byte length of two texts joined is the sum of theirs |
| Text.ByteLenAscii | day03/src/lib.rs:92 | an ASCII text has one byte per character |
| Text.OffsetsAscii | day05/src/lib.rs:76-78 | in an ASCII text every prefix's byte length is its character count |
| Text.Boundary | day05/src/lib.rs:93 | slicing at a byte offset: the character at which that offset falls, and None exactly when it falls inside a character or past the end |
| Text.BoundaryAscii | day05/src/lib.rs:93 | in an ASCII prefix a byte offset falls at the character of the same number |

## Left out

- Reading the input file, the command-line entry points, the unit-test macros and the benchmarks: not part of this model. Every solver takes the input text, or the parsed records below, as a parameter.
- day19 and days 21 to 25 are not part of this model.
- Regular-expression line parsing on days 7, 15 and 16 uses a foreign library, so it is not modelled. Day 7 takes the transcript as a sequence of `cd`/`ls` commands, day 15 as a sequence of sensor readings, and day 16 as a map from valve name to flow rate and tunnels.
- Day20.SolvePartOne: takes the numbers already parsed; the `isize` parsing of each line is not modelled.
- Day20.SolvePartOne: requires at least two numbers and a zero among them. The program panics without a zero (`expect("one zero")`) and indexes out of range with fewer than two numbers.
- Day20.SolvePartTwo: the same two requirements. The product with the decryption key is unbounded here, while the program computes it in `isize`.
- Day20.Ribbon.Mix: requires a step count in 1..len-2, because the program's relinking detaches the key otherwise (see Findings). The solvers use Day20.Ribbon.MixFixed.
- Debug output (`println!` on day 16, the `Display` implementations of days 8 and 20) is not modelled.
- Integer overflow of `usize` and `isize` is not modelled except where stated above. This covers sums and products of counts, scores and levels, day 15's coordinates, and day 18's neighbour coordinates one past `isize`.
- Hash set and hash map iteration order is not modelled. Where the program takes "some" element (day 3's common item), the model states only that the element belongs to the set. Where it iterates a map (day 16's valves and table rows), the model allows any order.
- Min-heap and max-heap layout is not modelled: a heap is a sequence, and pops take an entry of least (day 12) or greatest (day 16) key. Between equal keys the program's choice is unspecified.
- Day16.Distance: states only that the answer is the length of some walk from a to b, not the shortest one. The search pops the entry with the largest step count first. With tunnels A to B and C, B to D, C to X and X to D, it meets D after three steps where two suffice.
- Day16.SolvePartOne: states that the answer is a pressure some sequence of moves reaches in 30 minutes, not that it is the greatest. The pruning is proved sound step by step (Day16.StepBounds), but optimality is not carried through the search loop.
- Day 16's `solve_part_two` is a stub that returns 0 and is not modelled.
- Day17.Run: does not state the shape counter after n rocks. Day17.FallCounts states it for each rock.
- Day17.SolveCyclical: proves the program's accounting (the first cycle, the first repeat of the skyline, the remainder and the skipped repeats). It does not prove that the extrapolated height equals the height after that many rocks, because that rests on an unproved assumption that the tower is periodic. When no repeat is found, the result is an error where the program divides by zero.
- Day17.SolvePartTwo: answers the extrapolated height from Day17.SolveCyclical, which is not proved to be the tower's height after that many rocks.
- Day13.SortPackets: stands in for `sort_unstable` with an insertion sort and states sortedness for neighbouring packets only, because transitivity of the packet order is not proved.
- Day13.SortedKey: rests on Day13.SortPackets' neighbour-only sortedness, so the dividers' positions are stated in a permutation sorted for neighbours only.
- Day13.SolvePartTwo: the decoder key of that permutation, under the Day13.SortPackets line.
- Day11.ParseShowMonkey: proves the round trip for one monkey's block. The round trip for the whole input, blocks joined by blank lines, is not proved.
- Day11.SolvePartTwo: ties the reduced levels to the exact ones only for inputs the `Reducible` predicate accepts.
- Day08.SolvePartOne: reports an error on a grid that is not square, because the program's loops pair the row index with the width and the column index with the height; on such a grid the program misses trees or looks up a cell that does not exist.
- Day08.SolvePartTwo: reports an error when the lines differ in length. The program takes the width from the first line: it never looks at the extra trees of a longer line, and it may look up a missing cell of a shorter one and panic.
- Day14.SolvePartOne: reports an error where a grain comes to rest at the source. The program's next drop then starts on a resting cell and panics in `unreachable!()`; the model stops at the grain before that drop.
- Day15.EdgeCases: collects the candidates from the ring walked as intended (Day15.EdgePositions, see Findings), not from the cells the program pushes, half of which lie off the ring.
- Day15.SolvePartTwo: answers from those corrected candidates. The program's candidates can differ: it never tries the free cells on half of each ring, and it keeps free cells farther out. So its `assert_eq!` can fail where the model answers, and the reverse.
- Example answers from the puzzle statements are proved for days 5, 6 and 7 only.
- Day07.ParseInput: keeps each directory as its list of non-empty path components, while the program keys its totals by the text of its `PathBuf`. The two agree when every `cd` argument is "/", ".", "..", or a non-empty path with no trailing slash, no doubled slash and no "." component. Past that, the program keeps "/a/" and "/a" (or "/a//b" and "/a/b") as separate keys, and the model merges them. An empty argument (the line `cd `) acts like a trailing slash: the program's `PathBuf::push("")` turns "/x" into "/x/", while the model stays in "/x".
- Day07.Components: drops empty pieces, so "a/", "a//b" and "" read as "a", "a/b" and no component. The program's `PathBuf` text keeps the extra slashes, under the same proviso as Day07.ParseInput.
- Day07.SolvePartOne: answers for the merged directories, under the same proviso as Day07.ParseInput.
- Day07.SolvePartTwo: answers for the merged directories, under the same proviso as Day07.ParseInput.

## Findings

| source | as written | input that shows it | evidently intended | confidence | as-written member | corrected member |
|---|---|---|---|---|---|---|
| day20/src/lib.rs:87-106 | `mix` relinks even when the step count is 0. The target `other` is then the key itself, and the writes leave the key's old successor pointing past it, so the key drops out of the ring | numbers 2, 0, 1: the 2 takes 2 mod 2 = 0 steps | a step count of 0 leaves the cyclic order unchanged | not executed | Day20.RelinkDetachesAtZeroSteps | Day20.Ribbon.MixFixed |
| day20/src/lib.rs:83-106 | the complement `size - steps` turns a negative multiple of len - 1 into len - 1 steps. The target is then the key's predecessor, which the writes leave skipping the key | numbers -2, 0, 1: the -2 takes 2 - 0 = 2 = len - 1 steps | a full turn leaves the cyclic order unchanged | not executed | Day20.RelinkDetachesAtFullTurn | Day20.Ribbon.MixFixed |
| day15/src/lib.rs:138-142 | the second and fourth cells pushed for each delta move away from the sensor as delta grows (distance radius + 1 + 2 * delta). Half of the ring just outside the sensor's reach is never tried | a sensor at (0, 0) with radius 1: delta 1 pushes (y, x) = (-3, 1), four steps away, and the ring cell (-1, 1) is never pushed | every cell at distance radius + 1, walked from the four corners | not executed | Day15.AsWrittenOffRing | Day15.EdgePositions |
