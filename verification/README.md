# A verified model of the dictionary server

The server keeps many dictionaries, each a sorted list of words with optional synonyms and a file of records, and
answers queries of a client over a byte stream. This project models the parts in which something simple is computed
in a clever way, and proves that the clever way computes it.

- **Bounded edit distance.** `Alignment` defines the distance with adjacent swaps and shows that it is the least cost
  of any edit script. `BoundedDistance` is the table of the source, filled in L-shaped layers
  with prefix and suffix removal, operand swap and an early exit.
- **Decimal numbers.** `Decimal`, `Bignum`, `BignumArithmetic`, `Stripping` and `BignumDivision` are the digit arrays;
  `Modular` holds the number theory, `Rsa` exponentiation and the extended Euclid. The arrays have 100 slots, the only
  size for which the literal slot numbers 98 and 99 in the source (rsa.cpp:61-62, 144, 184) are the sign and the length;
  rsa.h:8 sets 800. `CompareNeedsHundredSlots` proves that no other size from 100 on will do. Multiplication is
  proved for every size.
- **Dictionary index.** `Words`, `WordList`, `IndexFile`, `FlatIndex` and `PagedIndex` are the orders, the lookups and
  the two index files; `Collation` is comparison by weights, `CollationOrder` says for which weights it is an order,
  and `CollationIndex` is the collated index.
- **Merging dictionaries.** `Cursors` moves one cursor per word list; `WordLists` has the replies made of that;
  `Suggestions` picks a word when nothing is found; `Fuzzy` keeps the nearest words.
- **MD5.** `Md5` buffers, counts and pads around a compression function that is a parameter.
- **Caches.** `DictZip` reads a compressed file through five cached chunks (`Recency` says which). `RecordFormat` puts
  back the section types of a record, `Records` keeps ten results in a ring, and `SectionWalk` is the client's walk.
- **Client and server.** `Strings`, `Queries` and `CommandLine` are the escapes and lines, `Wire` the layout of replies,
  `Results` and `Server` print them, `Client` takes them apart. `Answers` says what is answered, in terms of the
  dictionaries alone.

Code that changes arrays, fields or streams is modelled by methods on arrays and classes that do the same step by
step, proved against functions; the laws are lemmas about these functions. Words are values, not pointers. Where the
source reads outside an array or past a string the model returns a value that says so (`PastChunkTable`, `Overrun`,
`BeforeArray`), and lemmas say when that comes up.

Places where the code does not do what one would expect are modelled as they are:

- the paged lookup takes the first match of a suggestion from the wrong page when the insertion index starts a page
  (stddict.cpp:878): `LookupsAgree`, `SuggestionsDiffer`;
- subtraction of a larger number counts leading zeros from the length of the smaller one (rsa.cpp:305):
  `FindsLengthExactly`, `LengthGoesWrong`;
- a zero product of more places than the modulus is divided as a power of ten (rsa.cpp:352-366): `ProductReads`,
  `LongZeroGoesWrong`;
- a read that ends exactly at the end of a text of full chunks touches the entry after the last one
  (dictziplib.cpp:409-416): `PastTheTable`, `OneFullChunk`;
- `next` leaves out the first word above a word that no dictionary has (stardictdmain.cpp:581-595): `NextListsAbove`,
  `NextLeavesOut`;
- collation orders all words, ill-formed ones among them, only for tables whose weights rise from block to block
  (ctype-utf8.cpp:2215-2219): `CollateIsTotalExactly`, `CollateCycles`;
- sizes of upper-case sections are written in the order of the host and read in network order (data.cpp:161,
  printdata.cpp:1043): `WalkOnOtherOrder`, `SizesGoWrong`;
- a result in the ring answers a request of another size at the same offset (data.cpp:48-50): `FreshExactly`,
  `OtherSizeAnswered`.

`dafny verify dfyconfig.toml` checks the project.

## Model

| member | source | states |
|---|---|---|
| Alignment.DistanceIsLeastCost | source_codes/stardictd/src/lib/distance.cpp:125-149 | the distance computed place by place is the least cost of any script that takes the one text and puts the other, read from left to right, by keeping, replacing, inserting and deleting characters and exchanging two neighbours; some script reaches it |
| Alignment.NoScriptIsCheaper | source_codes/stardictd/src/lib/distance.cpp:130-135 | no script that takes a prefix of the one text and puts a prefix of the other costs less than the recurrence gives |
| Alignment.SomeScriptCostsD | source_codes/stardictd/src/lib/distance.cpp:130-135 | the recurrence always has an edit script of exactly its cost |
| Alignment.OneEdit | source_codes/stardictd/src/lib/distance.cpp:130-135 | one character inserted, deleted or replaced by another, or two different neighbours exchanged, anywhere in a text, is distance 1 |
| Alignment.PartsAddUp | source_codes/stardictd/src/lib/distance.cpp:125-149 | edits of disjoint parts of the texts add up |
| Alignment.ZeroIsEqual | source_codes/stardictd/src/lib/distance.cpp:125-149 | only equal texts are at distance 0 |
| Alignment.FixUp | source_codes/stardictd/src/lib/distance.cpp:133-135 | lowering a cell by one after the three-way minimum, when it exceeds the cell two up and two left by exactly 2 and the last two characters are swapped, gives the distance with swaps |
| Alignment.Diagonal | source_codes/stardictd/src/lib/distance.cpp:150-154 | along a diagonal the distance never falls and rises by at most one a step |
| Alignment.DiagonalWalk | source_codes/stardictd/src/lib/distance.cpp:150-154 | hence a cell on the final diagonal bounds the result from below: the early exit is sound |
| Alignment.Symmetric | source_codes/stardictd/src/lib/distance.cpp:97-105 | swapping the operands does not change the distance |
| Alignment.CommonLast | source_codes/stardictd/src/lib/distance.cpp:90-94 | dropping an equal last character does not change the distance |
| Alignment.CommonFirst | source_codes/stardictd/src/lib/distance.cpp:74-79 | dropping an equal first character does not change the distance, although a swap may reach across it |
| Alignment.PopFirst | source_codes/stardictd/src/lib/distance.cpp:74-79 | the same for whole texts, as the prefix loop uses it |
| Alignment.LengthBounds | source_codes/stardictd/src/lib/distance.cpp:106-108 | the distance is at least the difference in length and at most the sum of the lengths |
| BoundedDistance.SlotsDiffer | source_codes/stardictd/src/lib/distance.cpp:111-123 | different cells of the table never share an array slot; with Slot's own bound every index is below m*n |
| BoundedDistance.EditDistance.Relax | source_codes/stardictd/src/lib/distance.cpp:130-136 | one cell: the three-way minimum and the in-place fix-up store exactly the distance of the two prefixes and change no other cell |
| BoundedDistance.EditDistance.FillBorders | source_codes/stardictd/src/lib/distance.cpp:119-123 | row 0 and column 0 hold the distances from the empty prefix |
| BoundedDistance.EditDistance.FillLayer | source_codes/stardictd/src/lib/distance.cpp:125-149 | one L-shaped layer reads only cells that are already right and leaves all cells up to it right |
| BoundedDistance.EditDistance.Fill | source_codes/stardictd/src/lib/distance.cpp:125-157 | layer by layer with the exit at the limit: the result and the distance agree when both are cut off at the limit |
| BoundedDistance.EditDistance.Strip | source_codes/stardictd/src/lib/distance.cpp:74-94 | removing the common prefix and suffix keeps the distance and leaves texts that differ at both ends |
| BoundedDistance.EditDistance.CalEditDistance | source_codes/stardictd/src/lib/distance.cpp:70-158 | for all texts and every limit, min(result, limit) = min(distance, limit), with the table kept and grown between calls; when the table cannot be had the result, cut off, is never smaller |
| BoundedDistance.EditDistance.constructor | source_codes/stardictd/src/lib/distance.cpp:57-61 | a new object has room for 2500 cells or no table |
| Bignum.CompareOrders | source_codes/stardictd/src/rsa.cpp:58-75 | comparing lengths first and then digits from the top orders canonical numbers by value |
| Bignum.CompareNeedsHundredSlots | source_codes/stardictd/src/rsa.cpp:61-62 | for arrays of r >= 100 slots, cmp, which reads the length from slot 99, is right for all canonical numbers if and only if r = 100 |
| Bignum.Cmp | source_codes/stardictd/src/rsa.cpp:58-75 | the loop computes that comparison |
| Bignum.Mov | source_codes/stardictd/src/rsa.cpp:77-84 | the copy equals the original in every slot |
| BignumArithmetic.MulCell | source_codes/stardictd/src/rsa.cpp:105-113 | one digit product adds exactly its value at its place, although the next digit may pass 9 meanwhile |
| BignumArithmetic.MulRow | source_codes/stardictd/src/rsa.cpp:105-114 | after a row all digits are 0 to 9 again and the value is that of the factor's digits so far times the other factor |
| BignumArithmetic.Mul | source_codes/stardictd/src/rsa.cpp:87-120 | into a zeroed array of any size: exactly the product, all digits 0 to 9, the sign of the product, and a length that is the sum of the lengths or one less |
| BignumArithmetic.ProductTidy | source_codes/stardictd/src/rsa.cpp:116-118 | for nonzero canonical factors that length is the canonical one |
| BignumArithmetic.ZeroProduct | source_codes/stardictd/src/rsa.cpp:116-118 | a zero product has length l1+l2-1, so it is canonical only when both lengths are 1 |
| BignumArithmetic.Add | source_codes/stardictd/src/rsa.cpp:122-186 | signed sum in canonical form, for every combination of signs |
| BignumArithmetic.Sub | source_codes/stardictd/src/rsa.cpp:189-324 | signed difference in canonical form, for every combination of signs, wherever sub finds its length; a zero of more places than the subtrahend counts as the power of ten with so many zeros |
| BignumArithmetic.LongZeroReads | source_codes/stardictd/src/rsa.cpp:58-75 | such a zero compares as the larger number, and subtracting from it drops a borrow |
| BignumArithmetic.SubPlaces | source_codes/stardictd/src/rsa.cpp:225-252 | the borrows cancel: the digits are those of the difference, or, when a borrow is left over, of the difference and a power of ten |
| BignumArithmetic.Strip | source_codes/stardictd/src/rsa.cpp:253-268 | counting leading zeros down from the length of the first operand ends at the length of the difference |
| Stripping.FindsLengthExactly | source_codes/stardictd/src/rsa.cpp:301-313 | counting from the length of the first operand finds the length of a positive difference if and only if the difference has as many digits as the longer operand, or one less and a nonzero digit at the first place looked at, or few enough that the count meets them |
| Stripping.OwnBaseFinds | source_codes/stardictd/src/rsa.cpp:253-268 | in the branch for a1 > a2, which counts from the right length, the condition always holds |
| Stripping.LengthGoesWrong | source_codes/stardictd/src/rsa.cpp:301-311 | 999 - 10000: the length found is 1 instead of 4 |
| BignumDivision.TrialDigit | source_codes/stardictd/src/rsa.cpp:378-383 | each trial loop leaves a remainder below the shifted divisor and counts what it took away; from a dividend below ten times the shifted divisor it subtracts at most 9 times; a zero of more places is read as a power of ten |
| BignumDivision.DivPlace | source_codes/stardictd/src/rsa.cpp:368-388 | one place of the division: dividend = divisor * quotient so far + remainder, remainder below the divisor at this place; a long zero waits for the place at which it is misread |
| BignumDivision.DividendCompare | source_codes/stardictd/src/rsa.cpp:352-366 | dividends without leading zeros, and zeros no longer than the divisor, compare with it by value |
| BignumDivision.ZeroCompares | source_codes/stardictd/src/rsa.cpp:352-366 | a zero compares rightly with a positive divisor if and only if it has no more places than it; else it compares like the power of ten |
| BignumDivision.Divt | source_codes/stardictd/src/rsa.cpp:338-394 | the remainder is t mod b whatever the quotient array held, and stays t for a zero no longer than b; with a zeroed quotient array the quotient is exact and canonical; for a zero of l places, more than b has, the remainder is 10^l mod b |
| Modular.PowerSum | source_codes/stardictd/src/rsa.cpp:424-451 | powers multiply by adding exponents |
| Modular.CongruentProduct | source_codes/stardictd/src/rsa.cpp:434-450 | products of congruent numbers are congruent |
| Modular.GcdIsGreatest | source_codes/stardictd/src/rsa.cpp:518-544 | the result of Euclid's recursion divides both numbers and every common divisor divides it |
| Modular.BezoutStep | source_codes/stardictd/src/rsa.cpp:663-672 | one round keeps: both coefficients congruent to their remainders, signs alternating, |b2|*n1 + |b1|*n2 = g |
| Modular.AlternatingSigns | source_codes/stardictd/src/rsa.cpp:668-671 | with alternating signs b1 - k*b2 only ever adds magnitudes, and its sign alternates in turn |
| Modular.BezoutBounds | source_codes/stardictd/src/rsa.cpp:668-671 | hence the coefficients never exceed g |
| Modular.BezoutEnd | source_codes/stardictd/src/rsa.cpp:678-681 | when the remainder is 0, b2 + g mod g times e is the greatest common divisor modulo g |
| Modular.InverseNeedsCoprime | source_codes/stardictd/src/rsa.cpp:606-631 | an inverse exists only for coprime numbers |
| Rsa.InvariantStep | source_codes/stardictd/src/rsa.cpp:424-451 | temp * m^b stays congruent to a^p through one round |
| Rsa.Halve | source_codes/stardictd/src/rsa.cpp:425-430 | dividing by 2 leaves the half and tells odd from even |
| Rsa.ExpRound | source_codes/stardictd/src/rsa.cpp:424-451 | one round keeps the invariant, with zero products of any length, and b falls |
| Rsa.ExpMod | source_codes/stardictd/src/rsa.cpp:411-463 | m = a^p mod n for every p >= 1 and n >= 2 whose products fit; a zero result may have leading zeros |
| Rsa.ProductReads | source_codes/stardictd/src/rsa.cpp:396-407 | the product of two factors compares rightly with n if and only if it is nonzero or l1+l2-1 is at most the length of n |
| Rsa.MulMod | source_codes/stardictd/src/rsa.cpp:396-407 | m = a * b mod n for all factors whose product fits, if it is nonzero or has no more places than n; else m is 10^(l1+l2-1) mod n |
| Rsa.LongZeroGoesWrong | source_codes/stardictd/src/rsa.cpp:396-407 | 0 * 10 mod 3: the zero is divided as 100, which leaves 1 |
| Rsa.Coprime | source_codes/stardictd/src/rsa.cpp:518-544 | 1 exactly if the greatest common divisor is 1 |
| Rsa.DivideStep | source_codes/stardictd/src/rsa.cpp:646-655 | quotient and remainder of one round of Euclid |
| Rsa.FactorStep | source_codes/stardictd/src/rsa.cpp:665-672 | b1 and b2 become b2 and b1 - k*b2, with its sign in the sign slot |
| Rsa.EuclidLoop | source_codes/stardictd/src/rsa.cpp:643-674 | the loop ends with a divisor that leaves no remainder and with the coefficients of the invariant |
| Rsa.Rsad | source_codes/stardictd/src/rsa.cpp:633-686 | 0 <= d < g and e*d congruent to gcd(g, e) modulo g for all 0 < e < g |
| Rsa.PrivateExponentInverts | source_codes/stardictd/src/rsa.cpp:633-686 | so d inverts e modulo g if and only if e and g are coprime |
| Words.ByKeyIsTotal | source_codes/stardictd/src/lib/stddict.cpp:44-60 | comparing by any key and then by bytes is a total order, zero only on equal words |
| Words.StardictStrcmpIsTotal | source_codes/stardictd/src/lib/stddict.cpp:44-51 | stardict_strcmp is such an order |
| Words.LettersDecide | source_codes/stardictd/src/lib/stddict.cpp:44-51 | it compares first where two words differ by more than the case of an ASCII letter, capitals counting as the letters 32 higher, and puts a word before its continuations |
| Words.CaseDecides | source_codes/stardictd/src/lib/stddict.cpp:44-51 | words that differ by case only are ordered by the first byte that differs |
| WordList.BinarySearch | source_codes/stardictd/src/lib/stddict.cpp:985-999 | with any comparison: ends at an equal word, or just between a smaller and a larger one |
| WordList.FlatSearch | source_codes/stardictd/src/lib/stddict.cpp:973-1020 | the whole lookup with any comparison: equal word, or just between, or behind the last; the suggestion is that of the walk back |
| WordList.BetweenLocates | source_codes/stardictd/src/lib/stddict.cpp:973-1020 | in a sorted list just between is where the word belongs |
| WordList.FlatLookup | source_codes/stardictd/src/lib/stddict.cpp:973-1020 | found exactly if the word is in the list; the index is at the word or where it belongs; the suggestion is that of the walk back |
| WordList.SuggestionIsBest | source_codes/stardictd/src/lib/stddict.cpp:1000-1015 | the suggestion matches at least as far as every word the walk passed, and the word before it does not |
| WordList.SuggestionMeans | source_codes/stardictd/src/lib/stddict.cpp:1000-1015 | the suggestion is the word itself if it is there, the last word if all are smaller, and else at or before the place where it belongs, with no better word between |
| WordList.LocatedSplits | source_codes/stardictd/src/lib/stddict.cpp:973-1020 | a cursor placed by a lookup has exactly the words not below the word ahead of it and exactly those below it behind |
| WordList.GetWordNext | source_codes/stardictd/src/lib/stddict.cpp:1402-1425 | moving on removes exactly the word under the cursor from the words ahead |
| WordList.GetWordPrev | source_codes/stardictd/src/lib/stddict.cpp:1370-1400 | moving back reaches the greatest word behind the run, and there is one exactly if true is returned |
| WordList.GetOrigWordCount | source_codes/stardictd/src/lib/stddict.cpp:1427-1456 | the start and length of the run: exactly the places that hold the word |
| IndexFile.WindowRecord | source_codes/stardictd/src/lib/stddict.cpp:214-225 | a record reads the same in any part of the file that contains it |
| IndexFile.StartMonotone | source_codes/stardictd/src/lib/stddict.cpp:932-936 | records follow one another without overlap |
| IndexFile.WrittenIsParsed | source_codes/stardictd/src/lib/stddict.cpp:954-971 | the file made of any entries (key, NUL, offset and size in four bytes each, the highest first) is read back as exactly these entries, whatever stands behind them |
| FlatIndex.WordlistIndex.constructor | source_codes/stardictd/src/lib/stddict.cpp:913-952 | the pointer table holds where every record starts |
| FlatIndex.WordlistIndex.GetKeyAndData | source_codes/stardictd/src/lib/stddict.cpp:954-971 | key, offset and size of the record that scanning the file finds |
| FlatIndex.WordlistIndex.GetKey | source_codes/stardictd/src/lib/stddict.cpp:954-957 | the key that scanning the file finds |
| FlatIndex.WordlistIndex.Lookup | source_codes/stardictd/src/lib/stddict.cpp:973-1020 | lookup in the keys of the file |
| PagedIndex.OffsetIndex.constructor | source_codes/stardictd/src/lib/stddict.cpp:727-775 | one scan fills the offset table, with one entry per 32 records and one for the end, and the four boundary keys |
| PagedIndex.OffsetIndex.FillTable | source_codes/stardictd/src/lib/stddict.cpp:739-750 | every table entry is where the first record of its page starts |
| PagedIndex.PageBounds | source_codes/stardictd/src/lib/stddict.cpp:777-788 | pages cover the records; only the last may be short and none is empty |
| PagedIndex.OffsetIndex.ReadFirstOnPageKey | source_codes/stardictd/src/lib/stddict.cpp:228-249 | 264 bytes are enough to read the first key of a page |
| PagedIndex.OffsetIndex.GetFirstOnPageKey | source_codes/stardictd/src/lib/stddict.cpp:251-263 | the kept boundary keys are those of their pages |
| PagedIndex.OffsetIndex.Fill | source_codes/stardictd/src/lib/stddict.cpp:212-226 | the page in memory holds the records of the page |
| PagedIndex.OffsetIndex.LoadPage | source_codes/stardictd/src/lib/stddict.cpp:777-798 | the page is right whether it was cached or not, including the short last one |
| PagedIndex.OffsetIndex.GetKey | source_codes/stardictd/src/lib/stddict.cpp:800-808 | for every index, after any sequence of page loads: the same key, offset and size as scanning the whole file |
| PagedIndex.OffsetIndex.LookupPage | source_codes/stardictd/src/lib/stddict.cpp:836-854 | the page whose first key is the word, or the last page with a smaller first key |
| PagedIndex.OffsetIndex.LookupInPage | source_codes/stardictd/src/lib/stddict.cpp:857-875 | binary search within the page |
| PagedIndex.OffsetIndex.Lookup | source_codes/stardictd/src/lib/stddict.cpp:820-899 | found exactly if the word is there, the index at the word or where it belongs, and the suggestion as the code computes it |
| PagedIndex.LookupsAgree | source_codes/stardictd/src/lib/stddict.cpp:820-899 | against the flat lookup: same found flag; same index if the keys are distinct or the word absent; same suggestion if and only if the insertion index is not a positive multiple of 32 or the two starting matches let the walk take the same first step |
| PagedIndex.SuggestionsDiffer | source_codes/stardictd/src/lib/stddict.cpp:877-889 | an index of 33 words on which the paged lookup suggests another word than the flat one |
| PagedIndex.LocatedIsUnique | source_codes/stardictd/src/lib/stddict.cpp:820-899 | lookups of an absent word, or among distinct keys, have only one right index |
| Cursors.Libs.PoGetCurrentWord | source_codes/stardictd/src/lib/stddict.cpp:2232-2277 | the least word of the union of all cursors' remaining words, or none if that is empty |
| Cursors.Libs.Advance | source_codes/stardictd/src/lib/stddict.cpp:2350-2390 | every cursor at the word passes its run: the union ahead loses exactly that word |
| Cursors.Libs.PoGetNextWord | source_codes/stardictd/src/lib/stddict.cpp:2279-2392 | the least word ahead is passed and the next least returned, over all dictionaries and synonym files |
| Cursors.Libs.LookupAll | source_codes/stardictd/src/lib/stddict.cpp:2292-2326 | placing all cursors at a word splits the vocabulary into what is not below it and what is below it |
| Cursors.Libs.Retreat | source_codes/stardictd/src/lib/stddict.cpp:2472-2516 | the union behind loses exactly the word moved to |
| Cursors.Libs.PoGetPreWord | source_codes/stardictd/src/lib/stddict.cpp:2394-2518 | the greatest word behind all cursors is returned and passed |
| Cursors.Libs.InVocabulary | source_codes/stardictd/src/lib/stddict.cpp:2241-2248 | the vocabulary has exactly the words and synonyms of the loaded dictionaries that the local entries of the mask name |
| Cursors.Libs.InUnionAhead | source_codes/stardictd/src/lib/stddict.cpp:2241-2276 | ahead are exactly the words from the two cursor positions on, in the dictionary that the entry of the mask names |
| Cursors.Libs.InUnionBehind | source_codes/stardictd/src/lib/stddict.cpp:2410-2470 | behind are exactly the words before the place of another word under the cursor, or all words if it is past the end |
| WordLists.ListWords | source_codes/stardictd/src/stardictdmain.cpp:548-563 | the first maxwordcount words of the union of the remaining words, strictly ascending, none twice, none left out |
| WordLists.Previous | source_codes/stardictd/src/stardictdmain.cpp:565-579 | the words below the word, strictly descending and without gaps, up to the count |
| WordLists.Next | source_codes/stardictd/src/stardictdmain.cpp:581-595 | the words not below the word without the least of them, ascending, up to the count |
| WordLists.FirstIsUnique | source_codes/stardictd/src/stardictdmain.cpp:548-595 | there is only one such list |
| WordLists.NextListsAbove | source_codes/stardictd/src/stardictdmain.cpp:581-595 | what next lists is exactly the words above the word if and only if the word is in the vocabulary or nothing is above it |
| WordLists.NextLeavesOut | source_codes/stardictd/src/stardictdmain.cpp:581-595 | among the words a and c, next of b lists nothing |
| WordLists.RepliesPartition | source_codes/stardictd/src/stardictdmain.cpp:565-595 | previous, the word and next together are the vocabulary, without overlap |
| Suggestions.GetSuggestWord | source_codes/stardictd/src/lib/stddict.cpp:2177-2230 | of all words the cursors suggest, the one that matches furthest, and of these the first in order |
| Suggestions.SuggestedWords | source_codes/stardictd/src/lib/stddict.cpp:2185-2228 | the words suggested are those at the suggestion indexes, in the dictionaries that the mask names |
| Suggestions.BestMeans | source_codes/stardictd/src/lib/stddict.cpp:2185-2228 | the best word is the one such that every other suggested word matches less far, or as far and comes later in the order |
| Suggestions.BestIsUnique | source_codes/stardictd/src/lib/stddict.cpp:2177-2230 | there is only one such word, whatever the order of the dictionaries |
| Collation.UniReadsUtf8 | source_codes/stardictd/src/lib/ctype-utf8.cpp:1960-1998 | the decoder yields a character exactly where the bytes of RFC 2279, section 2, stand for it |
| Collation.CharsEncode | source_codes/stardictd/src/lib/ctype-utf8.cpp:1960-1998 | a well-formed word is the encoding of its characters |
| Collation.EncodedReads | source_codes/stardictd/src/lib/ctype-utf8.cpp:1960-1998 | an encoding is well-formed and decodes to the characters encoded |
| Collation.MyStrnncoll | source_codes/stardictd/src/lib/ctype-utf8.cpp:2198-2234 | the loop over two pointers, with the comparison of bytes at ill-formed text |
| Collation.CollComparesWeights | source_codes/stardictd/src/lib/ctype-utf8.cpp:2198-2234 | on well-formed words it compares the lists of weights |
| Collation.CharactersDecide | source_codes/stardictd/src/lib/ctype-utf8.cpp:2198-2234 | for words given as characters: the first characters of different weight decide, then the number of characters, and only then the bytes |
| Collation.CollateIsTotalOnWellFormed | source_codes/stardictd/src/lib/stddict.cpp:53-60 | stardict_collate on well-formed words is a total order, zero only on equal words |
| Collation.CollateCycles | source_codes/stardictd/src/lib/stddict.cpp:53-60 | with ill-formed words it is not: é < F < a stray byte < é |
| Collation.CollateIsByWeights | source_codes/stardictd/src/lib/stddict.cpp:53-60 | its sign is that of comparing weights first and bytes second |
| CollationOrder.CollComparesKeys | source_codes/stardictd/src/lib/ctype-utf8.cpp:2198-2234 | if the weights rise from block to block, the comparison is that of keys made of the weights and of the first bytes of ill-formed text, for all words |
| CollationOrder.RisingIsTotal | source_codes/stardictd/src/lib/stddict.cpp:53-60 | stardict_collate is then a total order on all words |
| CollationOrder.FallingCycles | source_codes/stardictd/src/lib/stddict.cpp:53-60 | two characters of different blocks whose weights do not rise give three words on which it is not transitive |
| CollationOrder.CollateIsTotalExactly | source_codes/stardictd/src/lib/stddict.cpp:53-60 | for every table: stardict_collate is a total order on all words, ill-formed ones among them, if and only if the weights rise strictly from every block of characters (ASCII, or 64 with the same leading bytes) to every later one |
| CollationIndex.IndexOrderTotal | source_codes/stardictd/src/lib/stddict.cpp:639-650 | sort_collation_index has no ties |
| CollationIndex.IndexOrderTransitive | source_codes/stardictd/src/lib/stddict.cpp:639-650 | and is transitive |
| CollationIndex.SortingPermutes | source_codes/stardictd/src/lib/stddict.cpp:708-725 | sorting by any comparison yields a permutation of the places; if the comparison is a total order, it presents the words in order, and equal words in the order of their places |
| CollationIndex.CollationFile.constructor | source_codes/stardictd/src/lib/stddict.cpp:708-725 | collate_load leaves a permutation of the places of any keys, in order if they are well-formed or the weights rise from block to block |
| CollationIndex.CollateZero | source_codes/stardictd/src/lib/stddict.cpp:53-60 | for all words, well-formed or not, only equal ones compare as equal |
| CollationIndex.CollationFile.Lookup | source_codes/stardictd/src/lib/stddict.cpp:586-632 | in any dictionary, what is found is an equal key; where the keys are well-formed or the weights rise, a word is found exactly if the dictionary has it, and located where it belongs (for rising weights, or when it is itself well-formed) |
| CollationIndex.CollationFile.LookupOriginal | source_codes/stardictd/src/lib/stddict.cpp:581-584 | and its original index is that of an equal key |
| Fuzzy.Search.Replaced | source_codes/stardictd/src/lib/stddict.cpp:3058-3085 | the new word takes a slot at the largest distance: the bound does not rise, and every seen word below it stays kept |
| Fuzzy.Search.FindSlot | source_codes/stardictd/src/lib/stddict.cpp:3062-3072 | the word is already kept, or the slot found holds the largest distance |
| Fuzzy.Search.Check | source_codes/stardictd/src/lib/stddict.cpp:3045-3085 | one word: the bound is the largest slot distance and never rises, kept words are distinct, and every word seen so far below the bound is kept |
| Fuzzy.SortInOrder | source_codes/stardictd/src/lib/stddict.cpp:2977-2985 | sorting by the order on slots puts no slot before a smaller one, although the order ignores empty slots |
| Fuzzy.ScanAll | source_codes/stardictd/src/lib/stddict.cpp:3019-3089 | all words of all dictionaries in the mask and of their synonym files are seen |
| Fuzzy.LookupWithFuzzy | source_codes/stardictd/src/lib/stddict.cpp:2995-3099 | the result is a run of words and then empty slots, by distance and then stardict_strcmp; each word was seen and is near the query in terms of its characters; a seen word that is near enough is missing only if the list is full and it is not nearer than the last word of the list; true exactly if there is a word |
| Fuzzy.DistIsFar | source_codes/stardictd/src/lib/stddict.cpp:3045-3060 | what is compared are the small letters of as many characters of the word as the query has with those of the query; near is a distance and a difference in length below the bound, and a distance below the length of the query |
| Fuzzy.NearestBeginsAlike | source_codes/stardictd/src/lib/stddict.cpp:3051-3060 | the distance is 0 exactly for words that begin with the letters of the query in whatever case |
| Fuzzy.InScanned | source_codes/stardictd/src/lib/stddict.cpp:3019-3089 | seen are exactly the words and synonyms of the dictionaries that the mask names |
| Fuzzy.BoundIsLargest | source_codes/stardictd/src/lib/stddict.cpp:3077-3083 | the bound of the search is the initial one while a slot is empty, and the distance of the last word in order when all are used |
| Fuzzy.SortedAnswer | source_codes/stardictd/src/lib/stddict.cpp:3092-3096 | sorting the slots gives that answer |
| Md5.CounterStep | source_codes/stardictd/src/md5.c:74-79 | the split counter is 8 times the length modulo 2^64, carry included |
| Md5.MD5Context.AddBits | source_codes/stardictd/src/md5.c:74-81 | the two words after an update, and the bytes already in the buffer |
| Md5.PaddedToBlocks | source_codes/stardictd/src/md5.c:118-155 | a padded message is a whole number of blocks (section 3.1 of RFC 1321) |
| Md5.FoldSplit | source_codes/stardictd/src/md5.c:101-107 | compressing in parts at block boundaries is compressing at once |
| Md5.MD5Context.constructor | source_codes/stardictd/src/md5.c:55-64 | a new context stands for the empty message |
| Md5.MD5Context.MD5Update | source_codes/stardictd/src/md5.c:70-112 | an update appends its data to the message, however much is in the buffer |
| Md5.MD5Context.StartPadding | source_codes/stardictd/src/md5.c:123-147 | one byte 80 and zeros, over one block or two, complete the padded message |
| Md5.MD5Context.PutU32 | source_codes/stardictd/src/md5.c:43-49 | four bytes, the lowest first |
| Md5.MD5Context.MD5Final | source_codes/stardictd/src/md5.c:118-159 | the digest is the fold of the compression function over the padded message (sections 3.1 to 3.4 of RFC 1321) |
| Md5.PaddedIsPadding | source_codes/stardictd/src/md5.c:118-155 | the padded message is the only one that starts with the message, goes on with the byte 80 and as few zeros as fill up the blocks, and ends with the number of bits in eight bytes, the lowest first (sections 3.1 and 3.2 of RFC 1321) |
| Md5.DigestMeans | source_codes/stardictd/src/md5.c:118-159 | the digest has 16 bytes: from the four numbers of section 3.3 of RFC 1321 each block takes one state to the next, and byte 4w+k is byte k, from the lowest, of word w of the last state |
| Md5.DigestOfParts | source_codes/stardictd/src/md5.c:55-159 | for any list of parts: updates with the parts and a final give the digest of their concatenation |
| DictZip.DictData.constructor | source_codes/stardictd/src/lib/dictziplib.cpp:264-271 | the offsets are the running sums of the chunk sizes, and the cache starts empty |
| DictZip.DictData.FindSlot | source_codes/stardictd/src/lib/dictziplib.cpp:419-434 | the slot that holds the chunk, or the first with the smallest stamp |
| DictZip.DictData.Access | source_codes/stardictd/src/lib/dictziplib.cpp:418-469 | for every history of accesses: the buffer holds the chunk asked for, and a slot marked with a chunk holds it |
| DictZip.DictData.Victim | source_codes/stardictd/src/lib/dictziplib.cpp:430-441 | while a slot is empty an empty one is taken, later the least recently used one |
| DictZip.DictData.Read | source_codes/stardictd/src/lib/dictziplib.cpp:358-500 | for every history: exactly the bytes of the text from start to start+size, when the last chunk touched is in the table; other file types as the code has them |
| DictZip.DictData.PastTheTable | source_codes/stardictd/src/lib/dictziplib.cpp:407-416 | a read within the text goes past the chunk table if and only if it ends at the end of a text of full chunks |
| DictZip.OneFullChunk | source_codes/stardictd/src/lib/dictziplib.cpp:407-416 | a text of one full chunk read to its end does |
| DictZip.DictData.CachedAreMostRecent | source_codes/stardictd/src/lib/dictziplib.cpp:422-441 | a chunk is cached if and only if it was accessed and fewer than five other chunks have been since; none is cached twice |
| DictZip.DictData.PieceExtends | source_codes/stardictd/src/lib/dictziplib.cpp:471-492 | what is copied of each chunk continues the text without gap or overlap |
| DictZip.DictData.TextIsInflated | source_codes/stardictd/src/lib/dictziplib.cpp:264-271 | for a file put together from a header and compressed chunks, the text is what the chunks inflate to, one after the other |
| Recency.FrontIsUsedSince | source_codes/stardictd/src/lib/dictziplib.cpp:422-441 | in a move-to-front list the items ahead of one are those used since |
| Recency.MostRecentDistinct | source_codes/stardictd/src/lib/dictziplib.cpp:422-441 | the list has every item used, once |
| RecordFormat.Expand | source_codes/stardictd/src/lib/data.cpp:56-178 | for every sequence of types: the types are put back, and the last section gets its NUL or size; the size stored is the number of bytes written; a section that runs past the record is reported |
| RecordFormat.OverrunExactly | source_codes/stardictd/src/lib/data.cpp:104-120 | with lower-case types, reading the sections runs past the end of the record if and only if it holds fewer NULs than there are sections before the last |
| RecordFormat.SectionsHaveTypes | source_codes/stardictd/src/lib/data.cpp:104-143 | the sections have the types given, and all strings but the last are free of NUL |
| RecordFormat.ExpansionSize | source_codes/stardictd/src/lib/data.cpp:72-97 | the size computed beforehand is that of the expansion |
| RecordFormat.StoredIsSent | source_codes/stardictd/src/lib/data.cpp:56-178 | a record of any sections, stored with a NUL behind each string and a size in the order of the host before each upper-case section but for the last, is read as these sections and expanded to each with its type and its bounds |
| SectionWalk.WalkFindsSections | source_codes/stardict-client/src/printdata.cpp:955-1066 | on a host of either order, unless a misread size leads to some other place inside the data: the client's walk over an expanded record finds exactly its typed sections, passing over the contents of upper-case ones, if and only if every size before the last section is read as written and the last section is a string without a NUL inside or has a size read as no smaller |
| SectionWalk.WalkOnNetworkOrder | source_codes/stardict-client/src/printdata.cpp:1041-1057 | on a host of network order: if and only if the last section is not a string with a NUL inside |
| SectionWalk.WalkOnOtherOrder | source_codes/stardictd/src/lib/data.cpp:161 | on a host of the other order, for records below 64 KiB: if and only if, moreover, every upper-case section before the last is empty |
| SectionWalk.SizesGoWrong | source_codes/stardict-client/src/printdata.cpp:1041-1057 | there a first upper-case section with any contents hides all sections behind it |
| SectionWalk.WalkTyped | source_codes/stardict-client/src/printdata.cpp:961-1065 | walking through typed sections yields them and goes on with what follows |
| SectionWalk.PrintData | source_codes/stardict-client/src/printdata.cpp:955-1066 | the loop over the pointer is that walk, for every block of bytes, with upper-case sections skipped by their size |
| Records.DictBase.GetWordData | source_codes/stardictd/src/lib/data.cpp:46-200 | for every history of calls: the expansion of the request held in the ring for this offset, or else of this request |
| Records.DictBase.Keep | source_codes/stardictd/src/lib/data.cpp:192-199 | the new result takes the oldest slot of ten |
| Records.RingDistinct | source_codes/stardictd/src/lib/data.cpp:46-51 | no offset is held twice, and only what was asked for is held |
| Records.RingIsLastTen | source_codes/stardictd/src/lib/data.cpp:46-51 | the ring holds the last ten results that were made |
| Records.DictBase.AnsweredBy | source_codes/stardictd/src/lib/data.cpp:46-200 | a request is answered with a result made for its offset if one is among the last ten made, and with a fresh one if not |
| Records.DictBase.FreshIsSent | source_codes/stardictd/src/lib/data.cpp:53-178 | a fresh result for the place of a record in the file is its sections, each with its type and its bounds |
| Records.DictBase.FreshExactly | source_codes/stardictd/src/lib/data.cpp:46-51 | the answer is the fresh expansion if and only if what the ring holds for the offset, if anything, has the size asked for |
| Records.DictBase.OtherSizeAnswered | source_codes/stardictd/src/lib/data.cpp:46-51 | two bytes asked for where one byte was asked for before: only the one byte is answered |
| Records.DictBase.OneSizePerOffset | source_codes/stardictd/src/lib/data.cpp:46-51 | if an offset is always asked for with the same size, the answer is the fresh expansion |
| Queries.AnalyseQuery | source_codes/stardictd/src/lib/lib.cpp:7-44 | the loop finds the text without escapes, and a pattern exactly if some wildcard is not escaped |
| Queries.MarksTellKinds | source_codes/stardictd/src/lib/lib.cpp:7-24 | a slash in front asks for a fuzzy search, a colon for a regular expression and a bar for a search in the records, for the rest of the query |
| Queries.WildcardsTellKinds | source_codes/stardictd/src/lib/lib.cpp:25-44 | any other query without backslashes is a pattern exactly if it has an asterisk or a question mark |
| Queries.BackslashQuotes | source_codes/stardictd/src/lib/lib.cpp:25-44 | a backslash makes the byte behind it stand for itself |
| Queries.StardictInputEscape | source_codes/stardictd/src/lib/lib.cpp:46-64 | the loop escapes a first mark and every backslash and wildcard |
| Queries.EscapeIsUndone | source_codes/stardictd/src/lib/lib.cpp:7-64 | for every text, the escaped text is a plain query for that text |
| Queries.EscapeIsNeeded | source_codes/stardictd/src/lib/lib.cpp:7-64 | a text is a plain query for itself if and only if escaping leaves it unchanged |
| CommandLine.ArgEscape | source_codes/stardict-client/src/command.cpp:28-43 | the loop escapes backslashes, spaces and newlines |
| CommandLine.ArgsNew | source_codes/stardictd/src/daemon.cpp:899-931 | the loop yields the arguments, or reports that it runs past the end of the line |
| CommandLine.ArgumentsSurvive | source_codes/stardictd/src/daemon.cpp:899-931 | taking apart the joined escaped arguments gives the arguments |
| CommandLine.LineIsTakenApart | source_codes/stardictd/src/daemon.cpp:899-931 | a space ends an argument, and behind a backslash n is a newline and every other byte itself |
| CommandLine.PlainIsSent | source_codes/stardict-client/src/command.cpp:28-43 | bytes other than backslash, space and newline are sent as they are |
| CommandLine.ReturnsVanish | source_codes/stardictd/src/net.cpp:113-137 | carriage returns vanish from a line, and nothing else does |
| CommandLine.OverrunIffDangling | source_codes/stardictd/src/daemon.cpp:904-929 | on every line, up to its first NUL, the loop runs past the end if and only if an odd number of backslashes stands there |
| CommandLine.Connection.NetReadLine | source_codes/stardictd/src/net.cpp:113-137 | the first line without carriage returns, if it ends within 10240 bytes |
| CommandLine.Connection.ReadCommand | source_codes/stardictd/src/daemon.cpp:952-956 | the line, up to its first NUL, becomes the arguments |
| CommandLine.CommandsArrive | source_codes/stardict-client/src/command.cpp:28-43 | through the line the server gets the arguments without carriage returns, or nothing when the line is too long |
| CommandLine.ArrivesIff | source_codes/stardictd/src/net.cpp:113-137 | it gets the very arguments if and only if they hold no carriage return and the line is short enough |
| Strings.SizeReads | source_codes/stardictd/src/net.cpp:157-164 | a size in network order reads back |
| Strings.SizePrints | source_codes/stardict-client/src/net.cpp:92-99 | every four bytes are the network order of the size they read as |
| Strings.SizeValue | source_codes/stardictd/src/net.cpp:157-164 | the first byte of a size counts 2^24, the second 2^16, the third 2^8 and the last 1 |
| Wire.ReplyReads | source_codes/stardict-client/src/command.cpp:503-610 | parsing a printed reply with anything behind it gives the reply and leaves exactly what is behind it |
| Wire.ReplyPrints | source_codes/stardict-client/src/command.cpp:503-610 | the parser accepts only printed replies and takes exactly their bytes |
| Wire.ReplyRoundTrip | source_codes/stardict-client/src/command.cpp:503-610 | for every nested reply: it is recovered with nothing more or less taken if and only if names, words and follow-up blocks are non-empty, strings are free of NUL, and d marks only nested lists |
| Wire.ReplyLayout | source_codes/stardictd/src/stardictdmain.cpp:398-425 | the bytes of a reply with one word, its two data blocks, and a plain or nested list, written out |
| Client.Socket.NetReadStr | source_codes/stardict-client/src/net.cpp:59-77 | a string up to its NUL, or failure |
| Client.AtoiReadsDecimals | source_codes/stardict-client/src/command.cpp:503-515 | the status is read as a decimal number |
| Client.Socket.NetReadData | source_codes/stardict-client/src/net.cpp:79-106 | a block by its size, in whatever portions it arrives |
| Client.Socket.PrintSections | source_codes/stardict-client/src/command.cpp:528-569 | the outer loop: one section per dictionary until the empty name |
| Client.Socket.PrintEntries | source_codes/stardict-client/src/command.cpp:541-568 | the middle loop: one entry per word until the empty word |
| Client.Socket.PrintBlocks | source_codes/stardict-client/src/command.cpp:558-567 | the inner loop: follow-up blocks until one of size 0 |
| Client.Socket.PrintDictResult | source_codes/stardict-client/src/command.cpp:503-571 | refused unless the status is 250, else the definition block |
| Client.Socket.ProcessCommandLookup | source_codes/stardict-client/src/command.cpp:573-610 | definition block and list, nested for d and flat otherwise |
| Server.StardictdMain.NetWriteData | source_codes/stardictd/src/net.cpp:157-164 | size in network order, then the bytes |
| Server.StardictdMain.ShowData | source_codes/stardictd/src/stardictdmain.cpp:398-425 | one definition block: the sections of the dictionaries that found something, and the advertisement at level 0 |
| Server.StardictdMain.ShowADs | source_codes/stardictd/src/stardictdmain.cpp:427-454 | one more section with one block |
| Server.StardictdMain.ShowNotFound | source_codes/stardictd/src/stardictdmain.cpp:456-460 | a definition block without sections |
| Server.StardictdMain.SimpleLookupToTextWin | source_codes/stardictd/src/stardictdmain.cpp:338-396 | exactly one definition block if something was found or a report was asked for, else nothing; exact words before similar ones, the head word last |
| Server.StardictdMain.LookupMatches | source_codes/stardictd/src/stardictdmain.cpp:462-517 | pattern, regular expression and fuzzy queries: one definition block, then the matches |
| Server.StardictdMain.LookupDataToMainWin | source_codes/stardictd/src/stardictdmain.cpp:519-546 | one definition block for the first match, then the matches by dictionary |
| Server.StardictdMain.ListWords | source_codes/stardictd/src/stardictdmain.cpp:548-563 | the list block of the first words ahead of the merged cursors, at most maxwordcount, one at least if there is one |
| Server.StardictdMain.SuggestWord | source_codes/stardictd/src/stardictdmain.cpp:617 | the best word among those the cursors suggest after the last lookup |
| Server.StardictdMain.SimpleQuery | source_codes/stardictd/src/stardictdmain.cpp:613-626 | definition of the word, of its head word or of the suggestion, then the words ahead of the cursors where the last of these lookups left them |
| Server.StardictdMain.LookupQuery | source_codes/stardictd/src/stardictdmain.cpp:597-628 | every kind of query prints exactly one definition block and one list, and which |
| Server.StardictdMain.DaemonLookup | source_codes/stardictd/src/daemon.cpp:785-793 | the status line, then the reply unless no dictionaries are chosen |
| Server.StardictdMain.HandleLookup | source_codes/stardictd/src/daemon.cpp:963-974 | the number of words is kept between 1 and 100, and is 30 by default |
| Server.StardictdMain.ServeLookup | source_codes/stardictd/src/daemon.cpp:951-974 | one pass of the command loop: a line is read, taken apart and answered exactly if it is a lookup |
| Server.StardictdMain.ExactRun | source_codes/stardictd/src/stardictdmain.cpp:254-263 | where the lookup of a word puts the cursors of a dictionary, they lead through the original places to the runs of keys equal to the word, or to none if it does not have the word |
| Server.StardictdMain.BuildOne | source_codes/stardictd/src/stardictdmain.cpp:246-289 | from the cursor to the original place, to the run of equal keys around it, to the entries |
| Server.FoundWhereItIs | source_codes/stardictd/src/stardictdmain.cpp:338-345 | the exact lookup finds something in a dictionary exactly if its words or its synonyms have the word |
| Server.FoundIfInVocabulary | source_codes/stardictd/src/stardictdmain.cpp:338-345 | and in some dictionary exactly if the merged vocabulary has it |
| Answers.PlainQueryLists | source_codes/stardictd/src/stardictdmain.cpp:613-626 | for every word of the vocabulary, the reply to its escaped form has one section for each dictionary that has the word, in order, with the word and the data of all records of that key, and then each target of the synonym with another key and its own data, and the advertisement last at level 0; it lists the words of all dictionaries from the word on, merged and in order |
| Results.ContributionIs | source_codes/stardictd/src/stardictdmain.cpp:246-289 | what a found word and a found synonym contribute, in terms of the keys, the data and the synonym records alone |
| Answers.KnownWord | source_codes/stardictd/src/stardictdmain.cpp:613-626 | the same for a word of which only similar words are found, with what the cursors of that lookup point at and the words ahead of them |
| Answers.KnownHead | source_codes/stardictd/src/stardictdmain.cpp:354-385 | a word that is only known without the punctuation around it is answered with that word's entries and list, under the word as it was asked |
| Answers.OnlySuggestion | source_codes/stardictd/src/stardictdmain.cpp:613-626 | if neither is known, the best word among those suggested by the last lookup is defined under its own name, and the words from it on are listed; without a suggestion the definition is empty, and the words from where that lookup left the cursors are listed |
| Answers.MatchQueries | source_codes/stardictd/src/stardictdmain.cpp:597-612 | fuzzy, regular expression and pattern queries list all matches under the marks f, g and r and define the first one |
| Answers.DataQuery | source_codes/stardictd/src/stardictdmain.cpp:519-546 | a search in the records lists the matches of each dictionary that has any, in order, and defines the first of all |
| Answers.AnswerStarts | source_codes/stardictd/src/daemon.cpp:785-793 | every answer starts with the line 250 and goes on with the reply |
| Answers.CountIs | source_codes/stardictd/src/daemon.cpp:963-974 | the number of words asked for is kept between 1 and 100, and is 30 if none is given |
| Server.AnswerIsValid | source_codes/stardictd/src/stardictdmain.cpp:597-628 | every reply is one the client can take apart, if names and words are not empty and no record that follows another of the same word is |
| Server.AnswerArrives | source_codes/stardict-client/src/command.cpp:573-610 | for every query the client recovers the server's reply and leaves what follows it |
| Server.LookupFromEndToEnd | source_codes/stardict-client/src/command.cpp:175-181 | from the word given to the client, through escaping, line, query and reply, to what the client shows |
| Results.SortedHasRuns | source_codes/stardictd/src/lib/stddict.cpp:1427-1456 | in a sorted list every word has one run, which is all the places that hold it, and it has a run exactly if the list has it |
| Results.FindRun | source_codes/stardictd/src/stardictdmain.cpp:254-263 | from any place of a word to that run |
| Results.BuildResultData | source_codes/stardictd/src/stardictdmain.cpp:246-289 | the word with the data of its whole run, then the synonyms outside that run; nothing exactly if nothing was found |
| Results.PutSynonyms | source_codes/stardictd/src/stardictdmain.cpp:271-285 | a loop that shortens its own bound for every synonym it skips still takes each remaining synonym once |
| Results.ContributionIsValid | source_codes/stardictd/src/stardictdmain.cpp:246-289 | what a dictionary contributes meets the needs of the client's parser, if its words are not empty and no record that follows another of the same word is |

## Left out

- BignumArithmetic.Sub: requires that the source finds the length of the difference (`Orderly`); `FindsLengthExactly` says exactly when it does, and what the digits beyond are otherwise is not modelled. Zeros of length 0 and 1 are not compared with each other.
- BignumArithmetic.Add: the same for operands of different signs, which it hands to subtraction.
- BignumDivision.Divt: the difference array of the trial loop, whose sign slot is read before it is written, is taken as zeroed (rsa.cpp:342).
- Rsa.ExpMod: base and modulus have at most 49 digits, so that products fit below the sign slot of 100 slots. The scratch arrays are fresh in every round.
- Rsa.Rsad: the modulus has at most 97 digits, so that its double and the products with their signs fit.
- BoundedDistance.EditDistance.CalEditDistance: whether memory is available is a parameter; sizes are unbounded integers.
- DictZip.DictData.Read: the read lies within the text, and the stamps stay below the largest int, where the source overflows. The stamp is counted per file, while the source shares one counter, which changes no comparison within a file. Inflating a chunk is a parameter, with all chunks but the last of full length.
- Records.DictBase.GetWordData: the record lies within the file. Sizes within four of 2^32 wrap round in the source and run past the record here.
- Md5.MD5Context.MD5Final: the compression function is a parameter; wiping the context is not modelled.
- PagedIndex.OffsetIndex.constructor: keys are shorter than 256 bytes, as the source assumes of index files, and the index is not empty. Offset cache files are not read or written. The synonym file has the same paging and lookup with one number per record (stddict.cpp:1023-1248) and is not modelled a second time.
- CollationIndex.CollationFile.Lookup: the table of weights is a parameter; insertion sort stands for the library's sort, whose result is the only one possible where the comparison is an order. Where it is none (ill-formed keys under weights that do not rise), the library leaves the result open; then only what is found is promised to be right.
- Cursors.Libs.PoGetNextWord: the lookups of all dictionaries come before the scan for the least word, while the source looks up each dictionary when the scan reaches it; neither reads what the other writes.
- WordLists.Next: for a word that no dictionary has, the code leaves out the first word above it; `NextListsAbove` says so.
- Fuzzy.LookupWithFuzzy: decoding and lower-casing are parameters; insertion sort stands for the library's sort.
- Suggestions.GetSuggestWord: how far two words match is a parameter.
- Server.StardictdMain.LookupQuery: where the lookup of similar words leaves the cursors and what it finds, the head word, and the matches of patterns, regular expressions, fuzzy queries and record searches are parameters; `Fuzzy` models the fuzzy ones. The advertisement's text is a parameter. A dictionary's keys are sorted by stardict_strcmp, as in the index file; the cursors may follow any order.
- Server.StardictdMain.ServeLookup: commands other than lookups are taken apart and passed over.
- Client.Socket.ProcessCommandLookup: returns what it reads instead of printing it as HTML.
- Results.BuildResultData: the runs that were looked up are parameters; `Server.StardictdMain.BuildOne` ties them to the cursors.
- SectionWalk.WalkFindsSections: a size misread by a host of the other order may lead to some other place inside a record of 64 KiB and more, where it depends on the contents whether the walk resumes at a section; there only the direction from sizes read as written is stated.
- Rsa.MulMod: the product has at most 98 digits, so that it fits below the sign slot.
- Integer widths: only the counter and lengths of MD5, stamps and block sizes are bounded.
- The UCA collations, whose code is not part of this model, and UTF8_BIN.
- Stripping suffixes to find similar words (`LookupSimilarWord`): a long case analysis.
- Encrypting text and making primes in rsa.cpp: the last two characters share a list node (rsa.cpp:911), and primality is probabilistic.
- Search in records (`SearchData`, kmp.cpp), sessions, users, database, configuration, storage and markup.
- Sockets, files and processes: streams and files are byte sequences.
