# Wordament solver, modelled in Dafny

This project models a C program that solves Wordament/Boggle puzzles. The program
reads a 4×4 letter board and a dictionary. It finds dictionary words that can be
traced through adjacent cells, using each cell at most once, and prints them longest
first, each one once. The model runs the 16 searches one after another. In that run every
printed word is a dictionary word traced on the board, and, when the dictionary file lists
its words in ascending order, every dictionary word that can be traced from one of the 16
start cells is printed.

The model has one module per source file:

- `Hash` (hash.c): the polynomial string hash. wordcount.c:68-83 holds an identical copy, which the word counter uses through this module. It evaluates the key with Horner's rule in
  64-bit wrapping arithmetic, then truncates to 32 bits. Characters are signed 8-bit values.
- `HashMaps` (hashmap.c): the chained hash map, as a class.
  - Its buckets are an array of chains.
  - Its abstract contents are a `map<string, V>`.
  - `Valid()` is the representation invariant: every key sits in chain
    `hash(key) % size`, keys are unique, and the chains flatten to the contents.
- `LinkedLists` (linkedlist.c) and `Queues` (queue.c): the list and the queue, as
  classes whose contents are a `seq`. The `while` loops of the source are kept where
  they compute something: size, containment, last element, copies, conversion to an array.
- `Puzzles` (puzzle.c): the board as a class over an array of cells. Cells and paths are
  values. It covers the id/coordinate arithmetic, the clockwise 8-neighbour rule and path
  extension for the three cell kinds: single, paired `(xy)` and alternative `/xy`.
- `MergeSort` (mergesort.c): the in-place merge sort, proved against a functional
  `MergeSortSpec`. The result is a permutation of the input, sorted for any asymmetric
  comparator. The threaded driver is modelled sequentially.
- `Parser` (parser.c): the two character state machines over a `seq<char>`.
  - The board parser is proved to fill cells in id order.
  - The dictionary parser is proved equal to "group the leading letter run of every
    `\n`-terminated line of at least three letters by its first three letters, in file order".
- `Wordament` (wordament.c): the word classifier `validate_word` and the breadth-first
  search `find_words_from`, with its own termination measure. Also `find_words` over the
  16 start cells, and the sort-then-print-once loop of `main`. `Solve` ties it all
  together from the two input texts to the printed words.
  - Soundness: every recorded path is a dictionary word, spelled along a chain of
    paths grown the way the search grows them (`Grown`, `Traceable`).
  - Completeness: the candidate loop of `validate_word` stops at the first candidate
    that sorts after the word. On buckets in ascending order its answer is exact, so
    no word along such a chain is missed.
- `WordCount` (wordcount.c): the word counter. Its reference is the sequence of maximal
  letter runs of the text. Each word's count is proved to be its number of occurrences
  modulo 2^32.
- `Wrappers`: the `Option` type that stands for C's NULL results.

## Model

| member | source | states |
|---|---|---|
| Hash.CharValue | hash.c:13 | the `uintmax_t` value of a signed `char` is below 2^64 and equals the character code for ASCII characters |
| Hash.Polynomial | hash.c:10-18 | Horner evaluation stays a 64-bit value |
| Hash.PolynomialIsPowerSum | hash.c:10-18 | `polynomial(p, z, av, n)` equals Σ av[n-1-p+i]·z^i over the last p+1 characters, modulo 2^64 |
| Hash.HornerStep | hash.c:15-17 | the power sum satisfies Horner's rule: s = s[0] + z·(s[1..]) |
| Hash.HashPolynomial | hash.c:3-7 | the hash of a non-empty key is a 32-bit value |
| Hash.HashPolynomialIsPowerSum | hash.c:3-7 | the hash is Σ key[i]·31^i reduced modulo 2^32 |
| Hash.SingleCharHash | hash.c:12-14 | a one-character ASCII key hashes to its character code |
| HashMaps.AdditiveHash | hashmap.c:31-38 | the default hash is a 32-bit value |
| HashMaps.AdditiveHashLoop | hashmap.c:31-38 | the character-summing loop computes the default hash |
| HashMaps.HashMap.constructor | hashmap.c:15-21 | a new map is valid and empty, has the requested number of buckets and uses the default hash |
| HashMaps.HashMap.BucketIndex | hashmap.c:91-93 | the bucket index lies in [0, size) |
| HashMaps.HashMap.GetBucket | hashmap.c:111-120 | it finds no entry exactly when the key is absent; otherwise it finds the entry with that key in the key's chain |
| HashMaps.HashMap.GetData | hashmap.c:50-56 | it returns the stored value of a present key and None for an absent one |
| HashMaps.HashMap.AddBucket | hashmap.c:122-133 | a fresh entry is appended at the tail of its own chain; the contents gain exactly that key; all other chains are unchanged |
| HashMaps.HashMap.InsertData | hashmap.c:40-48 | an absent key is added with the given value at its chain's tail; a present key keeps its value without a resolver and gets resolve(old, new) with one, in place: its chain changes only at that key's entry; other chains are unchanged; the invariant is kept |
| HashMaps.HashMap.RemoveData | hashmap.c:69-80 | removing an absent key changes nothing; a present key is dropped from the contents and from exactly one position of its chain; other chains are unchanged |
| HashMaps.HashMap.Iterate | hashmap.c:58-67 | it visits the entries in bucket order and then chain order, each key once, and visits exactly the keys of the map with their values |
| HashMaps.HashMap.SetHashFunction | hashmap.c:161-182 | the new function is installed and the key→value mapping is unchanged; the invariant holds afterwards for the new function |
| HashMaps.HashMap.InsertAllFrom | hashmap.c:161-182 | reinserting every chain of the old bucket array rebuilds exactly the old contents |
| HashMaps.FlattenOfLayout | hashmap.c:58-67 | the concatenated chains of a valid map hold unique keys and exactly its key/value pairs |
| HashMaps.ToMapOfFlatten | hashmap.c:58-67 | reading the concatenated chains back into a map gives the contents |
| HashMaps.LayoutAppend | hashmap.c:122-133 | appending a fresh key to its own chain keeps the representation invariant |
| HashMaps.LayoutRemove | hashmap.c:135-144 | unlinking one entry keeps the invariant for the contents without that key |
| LinkedLists.LinkedList.constructor | linkedlist.c:168-172 | a new list is empty |
| LinkedLists.LinkedList.Enqueue | linkedlist.c:6-19 | the element is appended at the tail |
| LinkedLists.LinkedList.Push | linkedlist.c:35-37 | push appends at the tail like enqueue |
| LinkedLists.LinkedList.EnqueueAll | linkedlist.c:24-30 | all elements of the other list are appended in order |
| LinkedLists.LinkedList.Dequeue | linkedlist.c:42-55 | the head is removed and returned (None when destroyed); an empty list is unchanged and yields None |
| LinkedLists.LinkedList.Pop | linkedlist.c:60-82 | the last element is removed and returned (None when destroyed); an empty list is unchanged and yields None |
| LinkedLists.Contains | linkedlist.c:87-96 | it returns true exactly when the element occurs in the list |
| LinkedLists.LinkedList.ContainsData | linkedlist.c:101-110 | it returns true exactly when some element compares equal (0) to the data |
| LinkedLists.LinkedList.Iterate | linkedlist.c:115-123 | the callback is applied to every element with its index, in order |
| LinkedLists.LinkedList.GetLast | linkedlist.c:128-135 | the last element, or None on an empty list |
| LinkedLists.LinkedList.GetFirst | linkedlist.c:140-143 | the first element, or None on an empty list |
| LinkedLists.LinkedList.IsEmpty | linkedlist.c:148-150 | true exactly when the list has no elements |
| LinkedLists.LinkedList.Size | linkedlist.c:155-163 | the number of elements |
| LinkedLists.LinkedList.Copy | linkedlist.c:177-185 | a fresh list with the same elements in the same order |
| LinkedLists.LinkedList.CopyData | linkedlist.c:190-198 | a fresh list holding the image of each element under the copy function, in order |
| LinkedLists.MapSeq | linkedlist.c:190-198 | the element-wise image has the same length and maps position i to f(s[i]) |
| LinkedLists.LinkedList.Clear | linkedlist.c:203-207 | the list is empty afterwards |
| LinkedLists.ToArray | linkedlist.c:220-230 | a fresh array holding the elements in list order |
| Queues.Queue.constructor | queue.c:127-131 | a new queue is empty |
| Queues.Queue.Push | queue.c:8-21 | the element is appended at the tail |
| Queues.Queue.Pop | queue.c:35-44 | the head is removed and returned; an empty queue yields None |
| Queues.PushInt | queue.c:26-30 | the integer is appended at the tail |
| Queues.PopInt | queue.c:49-57 | the head integer is removed and returned; an empty queue yields -1 |
| Queues.ContainsInt | queue.c:62-72 | true exactly when the integer occurs in the queue |
| Queues.GetLastInt | queue.c:77-84 | the last integer, or 0 on an empty queue |
| Queues.Queue.Clear | queue.c:89-93 | the queue is empty afterwards |
| Queues.ClearInt | queue.c:98-102 | the queue is empty afterwards |
| Queues.Queue.IsEmpty | queue.c:107-109 | true exactly when the queue has no elements |
| Queues.Queue.Size | queue.c:114-122 | the number of elements |
| Queues.Queue.Copy | queue.c:136-144 | a fresh queue with the same elements in the same order |
| Queues.CopyInt | queue.c:149-159 | a fresh queue with the same integers in the same order |
| Puzzles.Puzzle.constructor | puzzle.c:3-15 | a board of size n has n·n cells; cell i has id i, kind 0 and no letters |
| Puzzles.Puzzle.XyToId | puzzle.c:95-100 | in-range coordinates give a valid id; others give -1 |
| Puzzles.Puzzle.CellX | puzzle.c:109-111 | the column of a valid cell is in [0, size) |
| Puzzles.Puzzle.CellY | puzzle.c:112-114 | the row of a valid cell is in [0, size) |
| Puzzles.Puzzle.CoordinatesRoundTrip | puzzle.c:95-114 | coordinates → id → coordinates and id → coordinates → id are both the identity on valid values |
| Puzzles.Puzzle.GetCell | puzzle.c:72-77 | the cell with that id when the id is valid, None otherwise |
| Puzzles.Puzzle.GetCellXy | puzzle.c:78-80 | the cell at (x, y) when in range, None otherwise; the cell found has those coordinates |
| Puzzles.Puzzle.AddCell | puzzle.c:63-70 | only the slot of a valid id is overwritten; an invalid id changes nothing |
| Puzzles.Puzzle.GetCellNeighbors | puzzle.c:82-93 | the loop over the eight clockwise offsets collects the in-range cells in offset order |
| Puzzles.Puzzle.NeighborsUpToMembers | puzzle.c:82-93 | a cell is listed exactly when one of the offsets looked at so far lands on it |
| Puzzles.Puzzle.NeighborsSound | puzzle.c:82-93 | every neighbour is a board cell, is not the cell itself and is adjacent to it |
| Puzzles.Puzzle.NeighborsComplete | puzzle.c:82-93 | every adjacent board cell other than the cell itself is listed |
| Puzzles.Puzzle.NeighborsDistinct | puzzle.c:82-93 | no neighbour is listed twice |
| Puzzles.CompareCells | puzzle.c:143-147 | 0 exactly for cells with equal ids, otherwise 1 |
| Puzzles.AddCellToPath | puzzle.c:119-137 | no path when the cell is already on the path; otherwise cells + [cell] with word + [c1] for kind 0, word + [c1, c2] for kind 1, and two paths with c1 or c2 for kind 2 |
| Puzzles.AddCellToPathKeepsDistinct | puzzle.c:119-137 | extending keeps the cell ids distinct, grows the path by one cell and keeps the old word as a prefix |
| Puzzles.CompareLengthDesc | puzzle.c:153-157 | 1 exactly when the first word is shorter |
| Puzzles.CompareLengthAsc | puzzle.c:158-160 | 1 exactly when the first word is at least as long |
| Puzzles.CompareLengthDescAsymmetric | puzzle.c:153-157 | the descending comparator never says "greater" both ways |
| Puzzles.CollapseWord | puzzle.c:165-171 | a fresh buffer holding the word's letters in order and then a terminating NUL |
| Puzzles.BuildResultsFromList | puzzle.c:176-181 | the results hold the list's paths in order, with their count |
| MergeSort.Merge | mergesort.c:118-146 | the merge is exactly as long as the two halves together |
| MergeSort.MergePermutation | mergesort.c:118-146 | the merge is a permutation of the two halves together |
| MergeSort.MergeSorted | mergesort.c:118-146 | merging two sorted halves gives a sorted sequence |
| MergeSort.Split | mergesort.c:93 | the split point (n-1)/2 + 1 of n ≥ 1 items lies in [1, n] and makes the left half as long as the right one or one longer |
| MergeSort.MergeSortSpec | mergesort.c:90-110 | sorting keeps the length |
| MergeSort.MergeSortPermutation | mergesort.c:90-110 | the sort is a permutation of its input |
| MergeSort.MergeSortSorted | mergesort.c:90-110 | for an asymmetric comparator the result has no adjacent pair with compare > 0 |
| MergeSort.MergeHalves | mergesort.c:123-143 | the two-cursor loop fills the buffer with the merge, taking the left element on ties |
| MergeSort.MergeIntoBuffer | mergesort.c:118-143 | the buffer holds the merge of the two halves of the range |
| MergeSort.CopyBack | mergesort.c:144 | the buffer is copied over the range and nothing outside it changes |
| MergeSort.MergeSortCombine | mergesort.c:118-146 | the range becomes the merge of its two halves; the rest of the array is unchanged |
| MergeSort.MergeSortRange | mergesort.c:90-110 | the range becomes the reference sort of its old contents (a sorted permutation, by MergeSortPermutation and MergeSortSorted); the rest of the array is unchanged |
| MergeSort.DriverCounts | mergesort.c:19-20 | the two thread counts add up to the array size |
| MergeSort.DriverCountsSplit | mergesort.c:19-20 | for a non-empty array the thread halves are exactly merge_sort_combine's halves |
| MergeSort.DriverCountsEmpty | mergesort.c:19-20 | for an empty array the second thread receives the count -1, which is 2^64 - 1 items as a `size_t` |
| MergeSort.Sort | mergesort.c:3-55 | the driver sorts the first size elements and keeps the rest; an empty array is left unchanged |
| MergeSort.CompareInts | mergesort.c:161-163 | 1 exactly when the first integer is greater |
| MergeSort.CompareIntsAsymmetric | mergesort.c:161-163 | the integer comparator is asymmetric |
| MergeSort.SortedIntsAscending | mergesort.c:161-163 | sorted under the integer comparator means ascending order over all pairs |
| Parser.ParsePuzzle | parser.c:21-42 | the character loop leaves the board equal to the reference scan of the text |
| Parser.PuzzleStepOk | parser.c:22-40 | one character completes at most one cell, which has the current id and is filled, then moves to the next id |
| Parser.ScanPuzzleFills | parser.c:18-41 | cells are filled in id order and the scan never passes the board's last cell; unfilled cells are untouched |
| Parser.ParsedBoard | parser.c:18-41 | from a blank board, the first cells are filled in order and the others stay blank |
| Parser.ParseExample | parser.c:22-34 | `a(qu/ie` gives a single `a`, a paired `qu` and an alternative `i`/`e` |
| Parser.FileWord | parser.c:78-89 | a word is appended to its prefix's bucket, which is created when missing |
| Parser.EndLine | parser.c:77-92 | at a newline a word of at least three letters is filed and the buffer is cleared |
| Parser.ReadChar | parser.c:68-93 | one character of the loop is one step of the reference scan |
| Parser.ParseDictionary | parser.c:67-94 | the character loop leaves the map equal to the reference scan of the text |
| Parser.LineEnd | parser.c:77 | the end of a line is its first newline or end of text |
| Parser.Leading | parser.c:68-76 | a line's word consists of letters only |
| Parser.EntriesWords | parser.c:77-78 | every listed word has at least three letters, all alphabetic |
| Parser.ScanLine | parser.c:67-94 | a newline-terminated line files its leading letter run; a last line without newline files nothing |
| Parser.ScanIsGroup | parser.c:67-94 | the scan equals grouping the listed words by prefix in file order |
| Parser.GroupLookup | parser.c:77-89 | a bucket exists exactly when some word has that prefix, and holds the words with that prefix in file order |
| Parser.GroupGrouped | parser.c:77-89 | every bucket holds only alphabetic words of at least three letters starting with the bucket's key |
| Parser.FilterMembers | parser.c:77-89 | a word is in a prefix's selection exactly when it is listed, long enough and has that prefix |
| Parser.ParsedDictionary | parser.c:51-100 | the parsed dictionary is grouped by prefix; a key is present exactly when some word has that prefix; its bucket is those words in file order |
| Parser.UnterminatedLastLine | parser.c:96 | `cat\ndog` files `cat` only: the last line has no newline and is dropped |
| Wordament.CString | wordament.c:259-261 | a C string read from a buffer is the part before the first NUL |
| Wordament.ClassifyFromMeaning | wordament.c:257-286 | the candidate loop yields 0, 1 or 2; 2 only when the word ends where a candidate ends; 1 only when the word ends where a candidate goes on |
| Wordament.WalkIsAgree | wordament.c:261-271 | the inner loop stops at the first disagreement and rejects there exactly when pos-3 < matches or word[pos] < other[pos] |
| Wordament.WalkStops | wordament.c:269 | `matches` never decreases |
| Wordament.ClassifyBucket | wordament.c:257-286 | against a bucket of same-prefix words, 2 means the word is in the bucket and 1 means it is a proper prefix of a bucket word |
| Wordament.Lookup | hashmap.c:50-56 | the stored bucket of a present prefix, None for an absent one |
| Wordament.ClassifyMeaning | wordament.c:244-286 | no bucket gives 0; 2 means the word is in the dictionary; 1 means it is a proper prefix of a dictionary word |
| Wordament.CompleteFrom | wordament.c:257-286 | scanning a bucket in ascending order up to a candidate equal to the word answers 2 |
| Wordament.PrefixFrom | wordament.c:257-286 | scanning a bucket in ascending order that lacks the word, up to a candidate the word is a proper prefix of, answers 1 |
| Wordament.BucketExact | wordament.c:257-286 | on a bucket of same-prefix words in ascending order the candidate loop answers 2 exactly when the word is in the bucket, 1 exactly when it is not but is a proper prefix of a bucket word, and 0 otherwise |
| Wordament.ClassifyExact | wordament.c:244-286 | when the dictionary's buckets are in ascending order, validate_word answers 2 exactly for a dictionary word, 1 exactly for a proper prefix of a dictionary word that is not itself one, and 0 otherwise |
| Wordament.FilterAscending | parser.c:77-89 | the words filed under one prefix from a word list in ascending order are in ascending order |
| Wordament.SortedDictionary | parser.c:67-94 | a dictionary text whose entries are in ascending order gives a dictionary whose buckets are all in ascending order |
| Wordament.EntriesListed | parser.c:67-94 | a string is filed in the parsed dictionary under its first three letters exactly when it is an entry of the dictionary text |
| Wordament.ValidateWord | wordament.c:241-287 | the imperative candidate loop computes the classification of the word against its prefix's bucket |
| Wordament.ValidatePathWord | wordament.c:230-235 | a path is classified by its word |
| Wordament.AddPathToResultsList | wordament.c:301-303 | the path is appended to the results |
| Wordament.StartPaths | wordament.c:189-192 | a start cell gives one or two one-cell paths whose first letter is one of the cell's letters |
| Wordament.HandlePath | wordament.c:207-218 | a new path enters the frontier exactly when it is not rejected, and the results exactly when it is a word |
| Wordament.HandleExtensions | wordament.c:206-219 | all extensions through one neighbour are handled in order |
| Wordament.HandleNeighbors | wordament.c:203-221 | all neighbours of the path's last cell are handled in order |
| Wordament.ExpandFirst | wordament.c:200-223 | one round dequeues the head path and appends its kept extensions to the frontier and its words to the results |
| Wordament.FrontierRooted | wordament.c:199-224 | each round keeps every frontier path a chain of distinct board cells and strictly decreases the frontier's weight, so the search ends |
| Wordament.StartFrontier | wordament.c:189-195 | the initial frontier is the start cell's paths |
| Wordament.Drain | wordament.c:199-224 | the loop empties the frontier and records exactly the reference search |
| Wordament.FindWordsFrom | wordament.c:188-228 | the search from one start cell records exactly the reference search from its start paths |
| Wordament.SearchSound | wordament.c:199-224 | every recorded path is a dictionary word traced through distinct board cells |
| Wordament.SearchGrown | wordament.c:199-224 | every path the search records from a frontier of paths reachable from a start cell is the last path of a chain grown from that cell |
| Wordament.StepComplete | wordament.c:200-223 | one round either records the chain's last path or puts a later path of the chain into the next frontier |
| Wordament.SearchComplete | wordament.c:199-224 | when the frontier holds a path of a grown chain whose later paths are all kept and whose last path is a word, the search records that last path |
| Wordament.ChainValidity | wordament.c:207-218 | with the buckets in ascending order, no path of a chain grown to a dictionary word is rejected, and its last path is a word |
| Wordament.ValidityTwoMeaning | wordament.c:272-279 | classification 2 means the word has at least three letters and is in its prefix's bucket |
| Wordament.FindWords | wordament.c:147-186 | running the searches from the 16 start cells one after another records their results in order |
| Wordament.FoundSound | wordament.c:147-186 | every result of all searches is a dictionary word traced through distinct board cells |
| Wordament.FoundLast | wordament.c:147-186 | the first k searches record what the first k-1 record, then what the search from cell k-1 records |
| Wordament.FoundHas | wordament.c:147-186 | what the search from cell id records is among the results of the first k searches, for id < k |
| Wordament.FoundFrom | wordament.c:147-186 | each result of the first k searches is recorded by the search from one of the first k cells |
| Wordament.FoundTraceable | wordament.c:147-228 | every word find_words records is spelled along a chain grown from one of the 16 start cells |
| Wordament.FoundAll | wordament.c:147-228 | with the buckets in ascending order, a dictionary word spelled along a chain grown from one of the first k cells is the word of a recorded path |
| Wordament.FoundListed | wordament.c:147-228 | with the buckets in ascending order, every dictionary word spelled along a chain grown from one of the 16 start cells is the word of a recorded path |
| Wordament.Words | puzzle.c:149-151 | each printed word is the C string of its path's letters |
| Wordament.UnseenFacts | wordament.c:122-130 | the print-once filter prints exactly the words not seen before, and none twice |
| Wordament.PrintNewWords | wordament.c:122-130 | the loop prints a word only the first time it appears and records every word in the seen map |
| Wordament.SortedByLength | puzzle.c:153-157 | sorted under the descending comparator means non-increasing word length over all pairs |
| Wordament.SortResults | wordament.c:116-119 | the results array is the sort of the found paths by descending length |
| Wordament.PrintOnce | wordament.c:106-130 | printing with a fresh seen map prints each word once at its first occurrence |
| Wordament.Run | wordament.c:112-130 | the printed words are the search results, sorted by length, each printed once |
| Wordament.PrintedWords | wordament.c:116-130 | the printed words are exactly the words of the found paths |
| Wordament.FoundWordsListed | wordament.c:213-215 | every found word is in the dictionary bucket of its prefix |
| Wordament.Reported | wordament.c:112-130 | the output is sorted by non-increasing length, is a permutation of the results before the print filter, prints exactly the found words, none twice, all in the dictionary |
| Wordament.ReportedTraced | wordament.c:112-130 | every printed word is spelled on the board; with the buckets in ascending order, every dictionary word spelled on the board is printed |
| Wordament.Solve | wordament.c:99-130 | from the two texts, with the 16 searches run one after another: the parsed board, and the printed words are exactly the words found on it, each once, each a word read from the dictionary text and spelled on the board from one of the 16 start cells; when the dictionary text lists its words in ascending order, every entry spelled on the board is printed |
| WordCount.RunsConcat | wordcount.c:20-46 | letter runs of a text split at a non-letter are the runs of the two parts |
| WordCount.RunsOfRun | wordcount.c:22-32 | a run of letters followed by at most one non-letter is one word |
| WordCount.ResolveIncrement | wordcount.c:62-66 | the resolver's result is the old count plus one as an `unsigned int` |
| WordCount.TallyCounts | wordcount.c:38-43 | a word is counted exactly when it occurs, and its count is its number of occurrences modulo 2^32 |
| WordCount.CountWord | wordcount.c:38-43 | storing 1 for a new word or incrementing an old one is one tally step |
| WordCount.CountStep | wordcount.c:21-45 | one loop iteration keeps the counted-so-far invariant |
| WordCount.EndWord | wordcount.c:28-44 | closing a run counts the word from start up to (and at the last byte including) the current character |
| WordCount.CountInto | wordcount.c:20-46 | the loop leaves the map holding the tally of the text's letter runs |
| WordCount.CountWords | wordcount.c:6-52 | each word is reported once, exactly the words of the text, with its number of occurrences modulo 2^32 |
| WordCount.LastLetterCounted | wordcount.c:25-32 | in `ab a` the one-letter run at the last byte is counted |

## Left out

- Threads and locks: `find_words` runs its 16 searches one after another, and the `mergesort` driver sorts left, sorts right, then merges. The mutexes and the unsynchronised appends to the results list are not modelled. `add_path_to_results_list` (wordament.c:301-303) calls `ll_enqueue` on the one shared results list from all 16 threads without a lock (`result_mutex` at wordament.c:71 is never locked). Two threads that reach the same tail both write its `next`, so one recorded path can be lost, not only reordered. The model states the run of the 16 searches one after another; its completeness results (`Wordament.FoundListed`, `Wordament.ReportedTraced`, the last clause of `Wordament.Solve`) hold for that run only.
- File and console I/O: `fopen`/`fgetc`/`fclose` and `fseek`/`ftell`/`fread` are replaced by the file's text as a `seq<char>`. The `printf` output of `main` is returned as a sequence of words. `print_wordcount`'s signed `%i` rendering of a count is not modelled. The usage check of `main`, printer.c, `print_header` and `print_puzzle` are not part of this model.
- `fgetc`'s EOF: the parsers stop at the end of the sequence or at a byte 0xFF, which becomes -1 once stored in a `char` and then equals EOF.
- Memory management: malloc/free, `delete_hashmap`, `remove_buckets`, `ll_destroy`, the queue destroy functions, the path and results destroyers, `create_bucket`, the `strdup` copy and the exit codes on allocation or thread failure. box.c only heap-boxes values and is replaced by plain values.
- Pointer identity: `ll_contains` compares pointers; `LinkedLists.Contains` compares values. `pz_copy_path` is the identity on path values, and `get_bucket_list`/`get_bucket_prev` are folded into the chain-as-sequence representation.
- `ms_compare_wrapper` is the comparator itself, because elements are values rather than pointers to pointers. `compare_floats` compares floats and is left out. `ms_build_list`, the thread parameters and `thread_sort`/`thread_merge` are folded into `MergeSort.Sort`.
- `add_path_to_results_map` is not called by the program and is not modelled.
- Filing a word in the dictionary appends to the bucket's list in place; the model re-inserts the longer bucket (`Parser.FileWord`), so list aliasing is not captured.
- HashMaps.HashMap.SetHashFunction: the model states the intended behaviour: the mapping is kept and every entry is moved to its chain under the new hash. The C code is sure to do that only for an empty map, which is the only map the program rehashes. On a non-empty map it installs the new function first and frees the old entries afterwards, finding each entry's predecessor (`get_bucket_prev`) in the chain the new hash names, which by then may already be a rebuilt chain. For example, with 4 chains, `aa` and `cc` sit in chain 2 under the additive hash (194 and 198) and in chain 0 under the polynomial one (3104 and 3168). Chain 0 is rebuilt with new copies of `aa` and `cc` before chain 2 is freed. Freeing the old `aa`, `get_bucket_prev` does not find it in chain 0 and returns that chain's tail, the new `cc`, whose next is then set to the freed old `cc`, so the rebuilt chain ends in freed memory. The pointer behaviour is not modelled.
- Hash.HashPolynomial: requires a non-empty key. For an empty key `p = n - 1` wraps to 2^32 - 1, so the recursion runs about 2^32 levels deep, reading characters past the end of the key at each level until the stack overflows; only the base case, never reached, would read `av[-1]`. The program reaches this from a puzzle file with fewer than 16 cells: a blank start cell's path spells the empty prefix key. Maps therefore require their hash function to be defined on the keys they are given, and `Solve` requires letters on the 16 start cells.
- Wordament.ClassifyExact, Wordament.FoundListed, Wordament.ReportedTraced and the completeness clause of Wordament.Solve: assume buckets, or a dictionary text, in ascending order of signed characters. For an unsorted dictionary the candidate loop can answer 0 for a word in its bucket (the bucket `cars, card` answers 0 for `card`), so the program can miss words; the model then promises soundness only (`ClassifyMeaning`, `ClassifyBucket`).
- Wordament.Solve: requires the 16 parsed start cells to carry non-NUL letters (`Startable`), because a start path whose word begins with NUL would be looked up under the empty prefix key, where `hash_polynomial` recurses about 2^32 levels, reading past the key.
- LinkedLists.LinkedList.EnqueueAll: requires the two lists to differ. `ll_enqueue_all(q, q)` never ends in C, because the loop of linkedlist.c:24-30 walks the list it keeps extending. The program's only call, in wordament.c, passes two distinct lists.
- Wordament.ValidateWord: requires a word of at least three letters, as its only caller `find_words_from` guarantees.
- `isalpha` is modelled as the ASCII letters A-Z and a-z (the C locale).

## Findings

| source | as written | input that shows it | evidently intended | confidence | as-written member | corrected member |
|---|---|---|---|---|---|---|
| mergesort.c:19-20 | the driver gives the second thread the range [idx+1, size-1] with idx = (size-1)/2, so for size 0 it passes the count -1, which `merge_sort` receives as 2^64-1 items; `main` calls it with the result count, which is 0 when no word is found | `mergesort(array, 0, compare)` (a board with no dictionary word) | an empty array is left as it is | not executed | MergeSort.DriverCountsEmpty | MergeSort.Sort |
