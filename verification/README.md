# LeanRows core in Dafny

A model of the engine behind a bounded-memory viewer for large row files, and
proofs about it. The engine never holds a file: it scans records
incrementally, keeps a sparse index, rebuilds windows of rows from it,
searches, and sorts externally. Everything can be suspended by a byte budget,
cut short by a read that returns less than was asked, or cancelled.

The modules follow that engine. For each part there is a definition that knows
nothing of chunks, budgets or caches, and the stateful code is proved to
compute it.

| part | definition | stateful model |
|---|---|---|
| records | `Records` | `Scanner` |
| fields and keys | `Fields`, `RoundTrip` | `Key`, `Projection` |
| numbers | `Decimal`, `DecimalOrder` | `Number` |
| key order | `KeyOrder` | `Comparing` |
| sort | `SortSpec`, `SortMeaning`, `Sorting` | `BatchMerge`, `WinnerTree`, `Passes`, `Inverse`, `Storage`, `SortSession` |
| scratch bytes, ledger | | `Codec`, `Ledger` |
| search | `Hits` | `Literal`, `QuerySession` |
| index, scan, window | `Records` | `Index`, `ScanSession`, `Viewport` |
| dates, scroll bar | `Calendar`, `Scroll` | |

Main results:

- **Sort.** A step keeps the session's invariant, also when a read, a key or a
  scratch operation fails, with the exceptions listed below; steps end. A
  complete sort's order map lists every record once with its true span in
  strictly increasing key order, its inverse map undoes it, and the number of
  merge passes was the least possible. That order is unique, so it depends on
  nothing but the source and the request, and on no failure on the way.
  Undisturbed, a sort completes if and only if every number's exponent fits.
  What the order means is stated in bytes, numbers and rows (`SortMeaning`).
- **Key order.** Numbers compare by exact rational value; the fast path agrees
  with the slow one; together they are one strict total order. A suspended
  comparison always belongs to the pair that is asked about next.
- **Scanner, index and window.** The records found do not depend on chunking,
  stops or cancellations. The index of any partial scan is exact, and a window
  rebuilt from it is that slice of the full scan.
- **Search.** Unless a scratch write fails part of the way through a chunk, the
  stored hits are exactly the occurrences of the needle as it was given, or
  exactly the first ones the quota allows.
- **Fields.** The two field decoders agree, and tables written as section 2 of
  RFC 4180 prescribes come back unchanged.

Four findings are about where the code does less than one might expect:

- A search whose scratch write failed can be advanced again, but its cursor is
  saved only at the end of a chunk, so hits stored before the failing write are
  stored a second time (`QuerySession.FailedWriteRepeats`). That cannot happen
  if and only if the chunk has no second hit to write
  (`QuerySession.FailuresAreSafe`), and a caller can rule it out by asking for
  no more work at a time than the needle's length less its longest border.
- A page load that fails leaves the read page claiming its old place with
  records of another (`Storage.SpoiltPageMisleads`). Reads are right as long as
  they do not ask for that old place (`Storage.AfterFailedLoad`), and a sort
  asks for the record it failed to load
  (`SortSession.SortSession.StartGroup`, `SortSession.SortSession.RankOne`).
- A sort can be advanced again after a failing scratch operation if and only if
  the operation is none of these (`SortSession.SortSession.Step`,
  `SortSession.SortSession.Advance`). Writing a merged record, or loading the
  one after it: the head is taken first and not put back
  (`SortSession.AfterFailedEmit`, `SortSession.StuckExample`). Starting the next
  pass or the maps after a merge pass: the pass file is taken first
  (`SortSession.SortSession.PassOver`). Both leave a session that reports
  invalid scratch data from then on. Writing collected pairs: the order map has
  the rank already, and the next pair goes past its buffer
  (`Inverse.InverseBuilder.FullSpills`). Besides, a refused write stays charged
  to its file, so a run file that does not then end on a page boundary cannot be
  read to its end (`Storage.EveryRecordReadable`), also reported as invalid
  scratch data.
- The two scroll mappings are inverse to each other in one direction at a time;
  `Scroll.PositionsReturn` and `Scroll.StartsReturn` give the exact conditions.

Reading conventions. A source is an immutable byte sequence of at most 2^64 − 1
bytes; reads may be short or fail. Failing reads, cancellation, refused memory
and a changed source are nondeterministic choices of calls that are told they
are not `calm`; the scratch operation that fails in a step of the sort is an
argument of the step. A detected source change ends the call with an error. Integers are unbounded; where 64-bit saturation, overflow
or two's complement matters it is written out. Run `dafny verify
dfyconfig.toml` to check the project.

## Model

| member | source | states |
|---|---|---|
| Prelude.ReadAt | crates/leanrows-core/src/source.rs:28-46 | A positioned read returns the source's own bytes, at least one and at most as many as asked for, or fails |
| Records.RecordsTile | crates/leanrows-core/src/scan.rs:298-449 | Record spans followed by their LF, CR or CRLF terminators cover the source from end to end, without gap or overlap |
| Records.RecordsMeet | crates/leanrows-core/src/scan.rs:318-381 | The first record starts the source; each ends at a CR or LF or with the source; the next starts right behind that newline, CRLF being one |
| Records.RestartAt | crates/leanrows-core/src/scan.rs:231-249 | A scan started at any record's start finds exactly the records from there on and the same end diagnostic; starts strictly increase |
| Records.RecordHoldsNoUnquotedNewline | crates/leanrows-core/src/scan.rs:342-359 | A CR or LF inside a record is inside quotes |
| Records.DiagnosticIsExact | crates/leanrows-core/src/scan.rs:391-429 | A source, in either format, has the end diagnostic if and only if its last record reaches the end of the source inside quotes; it gives the source's length and that record's start |
| Scanner.BoundaryScanner.Feed | crates/leanrows-core/src/scan.rs:298-387 | For every chunk, callback stop and cancellation: records emitted now followed by those still unread are those unread before, and the end diagnostic is unchanged; so the whole output does not depend on chunking |
| Scanner.ScanInPieces | crates/leanrows-core/src/scan.rs:259-429 | A whole run over any chunk sizes, callback stops and cancellations, each resumed where the one before left off, emits a prefix of the one-pass records, and all of them with the one-pass diagnostic once it reaches the end; undisturbed and given all bytes it does |
| Scanner.BoundaryScanner.Step | crates/leanrows-core/src/scan.rs:318-381 | One turn of the byte loop: a deferred CR is settled first; only a callback stop there leaves the byte unconsumed |
| Scanner.BoundaryScanner.SettleCr | crates/leanrows-core/src/scan.rs:319-340 | A deferred CR ends its record exactly where the one-pass reading does, and takes an LF after it along |
| Scanner.BoundaryScanner.Consume | crates/leanrows-core/src/scan.rs:342-380 | Consuming a byte keeps the scanner in agreement with the one-pass reading; only an LF outside quotes emits |
| Scanner.BoundaryScanner.CompleteRecord | crates/leanrows-core/src/scan.rs:439-448 | The emitted span is the first unread record and the rest stay unread |
| Scanner.BoundaryScanner.NextState | crates/leanrows-core/src/scan.rs:361-378 | The scanner's transition table is that of the reference automaton, in both formats |
| Scanner.BoundaryScanner.Finish | crates/leanrows-core/src/scan.rs:391-429 | At the end of input exactly the unread records (one or none) are emitted, with the diagnostic of the one-pass reading |
| Fields.KeySpanSelectsField | crates/leanrows-core/src/sort/key.rs:86-143 | The span found for column k decodes to the k-th field, and is found exactly when that field exists |
| Key.LocatedKeyIsField | crates/leanrows-core/src/sort/key.rs:116-140 | The located key span lies in its record and decodes to the column's field, or to nothing when it is missing |
| Key.Locator.Step | crates/leanrows-core/src/sort/key.rs:98-128 | Each byte keeps the locator on course for the field a fresh search would find |
| Key.Locator.Advance | crates/leanrows-core/src/sort/key.rs:86-142 | However the budget is sliced and reads are short, the locator finds the span, quoting flag and record of the requested column |
| Key.Cursor.Take | crates/leanrows-core/src/sort/key.rs:206-226 | A byte read yields the next decoded byte or nothing, and the rest of the key stays what it was |
| Key.Cursor.Next | crates/leanrows-core/src/sort/key.rs:185-229 | The bytes yielded, over any slicing of the budget, are the decoded key; End comes exactly when it is used up |
| Projection.TakeByte | crates/leanrows-core/src/projection.rs:282-336 | Each byte keeps the accumulator equal to the decoded field so far, cut at its limit, with exact quoting flags |
| Projection.FieldEnds | crates/leanrows-core/src/projection.rs:371-389 | A field closed at a delimiter is added within the limits, and what was shown so far and what is still to be shown stay the fields the definition gives |
| Projection.LastField | crates/leanrows-core/src/projection.rs:339-353 | The last field completes exactly the fields to be shown, and omission is reported exactly when there are more |
| Projection.ProjectDelimitedRecord | crates/leanrows-core/src/projection.rs:254-354 | The single pass returns the fields of the split-then-decode definition under all three limits, with exact flags, or the error its inputs call for |
| Projection.RawFieldsSplit | crates/leanrows-core/src/projection.rs:296-318 | A record is split at every delimiter outside quotes and at no other byte |
| Projection.ShownTells | crates/leanrows-core/src/projection.rs:278-345 | Field i shown lies where raw field i does; it is called quoted exactly when it begins with a quote, escaped exactly when a quote is doubled inside its quotes, and cut exactly when the visible prefix is and ends in it |
| Projection.ShownIsBounded | crates/leanrows-core/src/projection.rs:197-203 | Each shown field is a prefix of the decoded field, marked exactly when cut; field count, field size and total size stay within the limits |
| Projection.AmpleLimits | crates/leanrows-core/src/projection.rs:280-353 | With limits no smaller than the record every field is shown in full |
| Projection.SortKeyIsDisplayed | crates/leanrows-core/src/sort/key.rs:86-143 | The sort key of any record and column is the decoded field the projection displays, malformed quoting included, or empty when it is missing |
| RoundTrip.TableRoundTrips | crates/leanrows-core/src/scan.rs:342-378 | Any table of non-empty rows of arbitrary byte fields, written with quoted fields, doubled quotes and CRLF (section 2 of RFC 4180), is scanned and split into the same rows and fields, with no diagnostic |
| RoundTrip.ProjectionRoundTrips | crates/leanrows-core/src/projection.rs:254-354 | So are the fields projected from each scanned record with large enough limits |
| RoundTrip.LastQuoteMatters | crates/leanrows-core/src/scan.rs:391-429 | After any rendered table, a row without its last quote has the diagnostic of an unterminated field in that row, and the whole row without its newline has none |
| RoundTrip.StatesOfFields | crates/leanrows-core/src/scan.rs:361-378 | A field that does not begin with a quote is plain up to the next delimiter, later quotes included; one that does is quoted up to a quote that is not doubled and plain after the next byte; a delimiter outside quotes begins a field anew |
| RoundTrip.FieldsMean | crates/leanrows-core/src/sort/key.rs:206-226 | A raw field that does not begin with a quote stands for itself; of a quoted one, closed or not, doubled quotes are single ones, and what follows the closing quote is kept |
| Decimal.ReadIsSound | crates/leanrows-core/src/sort/key.rs:247-305 | What the number automaton has read is a literal of the shape its state says, spelling the bytes read |
| Decimal.ReadIsComplete | crates/leanrows-core/src/sort/key.rs:247-305 | Every literal of the grammar is read to the end |
| Decimal.AcceptsExactlyLiterals | crates/leanrows-core/src/sort/key.rs:331-343 | The automaton accepts exactly the decimal literals with optional sign, fraction, exponent and surrounding whitespace |
| DecimalOrder.NormalForm | crates/leanrows-core/src/sort/key.rs:347-358 | The value of a literal is its sign times 0.d1d2… times ten to the magnitude, with d1 not zero unless the value is |
| DecimalOrder.PaddedCompareIsExact | crates/leanrows-core/src/sort/key.rs:19-29 | Comparing digit by digit, padded with zeros, is comparing the fractions |
| DecimalOrder.MagnitudeDominates | crates/leanrows-core/src/sort/key.rs:465-477 | Of two normal forms the one with the larger magnitude is the larger |
| DecimalOrder.SummaryCompareIsExact | crates/leanrows-core/src/sort/key.rs:457-486 | Sign, then magnitude, then digits is the order of the exact rational values, zeros equal |
| DecimalOrder.LiteralMeans | crates/leanrows-core/src/sort/key.rs:331-360 | Without an exponent a literal is worth its integer part plus its fraction, negated after a minus sign; an exponent n multiplies that by ten n times, and after a minus sign divides it so |
| Number.Number.Push | crates/leanrows-core/src/sort/key.rs:248-305 | Each byte keeps the flags and counters equal to those of the literal read so far, or marks the key as no number |
| Number.Number.Digit | crates/leanrows-core/src/sort/key.rs:306-317 | A digit keeps the counts of digits, integer digits and leading zeros |
| Number.Number.ExponentDigit | crates/leanrows-core/src/sort/key.rs:318-330 | The exponent is exact as long as it fits in 63 bits, and overflow is remembered for good |
| Number.Number.Finish | crates/leanrows-core/src/sort/key.rs:331-360 | The summary is that of the literal; only a number whose exponent does not fit fails |
| Number.BlankIsStart | crates/leanrows-core/src/sort/key.rs:332-336 | A key is grouped as blank exactly when it holds nothing but whitespace |
| Number.BytesOfNumbers | crates/leanrows-core/src/sort/key.rs:247-330 | For every byte: whether it is blank, may be a number by itself, begin one, end one, stand in its midst or follow its exponent mark |
| KeyOrder.DescriptorTellsTruth | crates/leanrows-core/src/sort/key.rs:375-402 | The stored descriptor of a record describes the column's decoded field |
| KeyOrder.KeyAntisymmetric | crates/leanrows-core/src/sort/key.rs:447-508 | The order on keys is antisymmetric in both modes and directions |
| KeyOrder.KeyTransitive | crates/leanrows-core/src/sort/key.rs:447-508 | It is transitive, also where text, numbers and blanks mix |
| KeyOrder.OrderAntisymmetric | crates/leanrows-core/src/sort/key.rs:501-508 | With ties broken by source row it stays antisymmetric |
| KeyOrder.OrderTransitive | crates/leanrows-core/src/sort/key.rs:501-508 | and transitive |
| KeyOrder.OrderStrict | crates/leanrows-core/src/sort/key.rs:501-508 | and two different rows are never equal |
| KeyOrder.NumbersByExactValue | crates/leanrows-core/src/sort/key.rs:457-486 | Numeric keys are ordered by exact value, reversed when descending, with ties by row that are never reversed |
| KeyOrder.DecideIsExact | crates/leanrows-core/src/sort/key.rs:447-499 | Whenever the stored fields decide, the answer is the order on full keys; when they do not, the rest of the keys decides it |
| Comparing.Builder.Take | crates/leanrows-core/src/sort/key.rs:383-392 | Each key byte keeps prefix, length and number summary equal to those of the key read so far |
| Comparing.Builder.Complete | crates/leanrows-core/src/sort/key.rs:393-398 | The finished descriptor is the one the definition gives; it fails exactly for a numeric key out of range, and can be asked again |
| Comparing.Builder.Advance | crates/leanrows-core/src/sort/key.rs:375-402 | The descriptor built does not depend on how the budget is sliced. Every error leaves a builder that can go on; one whose key is out of range never yields a descriptor |
| Comparing.Digits.Next | crates/leanrows-core/src/sort/key.rs:417-442 | The digits yielded are the significant mantissa digits of the key, over any slicing |
| Comparing.ResidueStep | crates/leanrows-core/src/sort/key.rs:572-592 | Comparing one byte, or digit, of each side and then the rest is comparing the whole |
| Comparing.Comparison.Turn | crates/leanrows-core/src/sort/key.rs:549-593 | One pass of the loop answers with the key order or keeps the comparison's outcome what it was |
| Comparing.Comparison.Advance | crates/leanrows-core/src/sort/key.rs:538-594 | A comparison answers with the order on full keys however its budget is sliced; when it yields it has used the whole budget and will answer the same |
| Sorting.AppendRun | crates/leanrows-core/src/sort/session.rs:412-426 | Appending a sorted run to full runs leaves runs, of which only the last may be short |
| Sorting.MergeTakeLeft | crates/leanrows-core/src/sort/session.rs:447-470 | Taking the left head when it is not greater keeps the merged part a sorted permutation of what was taken |
| Sorting.MergeTakeRight | crates/leanrows-core/src/sort/session.rs:447-470 | The same for the right head when it is smaller |
| BatchMerge.StartPair | crates/leanrows-core/src/sort/session.rs:437-446 | The next two runs of a bottom-up pass are set up as sorted halves |
| BatchMerge.Take | crates/leanrows-core/src/sort/session.rs:458-471 | Moving one record keeps the pass in order: finished pairs are sorted permutations, the rest is untouched |
| BatchMerge.PairDone | crates/leanrows-core/src/sort/session.rs:469-471 | A finished pair is one sorted run of twice the width |
| BatchMerge.PassDone | crates/leanrows-core/src/sort/session.rs:428-436 | A finished pass turns runs of width w into sorted runs of width 2w, permuting the batch |
| WinnerTree.PlayKeepsValid | crates/leanrows-core/src/sort/session.rs:526-536 | Writing the winner of a node's two children finishes that node and keeps every other finished one |
| WinnerTree.NodeIsLeast | crates/leanrows-core/src/sort/session.rs:525-573 | Through every build, emit and replay step a finished node names the run whose head sorts first among all runs below it |
| WinnerTree.EmptyNode | crates/leanrows-core/src/sort/session.rs:612-631 | Through every step a finished node is empty exactly when no run below it has a record left |
| WinnerTree.RootIsLeast | crates/leanrows-core/src/sort/session.rs:537-545 | At the time of writing the root names the least head of all, or none is left |
| WinnerTree.EmitKeepsValid | crates/leanrows-core/src/sort/session.rs:545-561 | After a record is written only the path from its leaf to the root is unfinished |
| WinnerTree.EmitMerges | crates/leanrows-core/src/sort/session.rs:545-561 | The records written stay a sorted sequence that nothing unread precedes, and no record is lost or repeated |
| WinnerTree.GroupDone | crates/leanrows-core/src/sort/session.rs:539-543 | When the root is empty the group's output is a sorted permutation of its runs |
| Passes.GroupStarts | crates/leanrows-core/src/sort/session.rs:579-600 | A new group takes the next runs in order and begins with nothing written |
| Passes.GroupEmits | crates/leanrows-core/src/sort/session.rs:545-561 | Writing a record keeps the pass: earlier groups are full sorted runs of the wider width |
| Passes.GroupEnds | crates/leanrows-core/src/sort/session.rs:538-543 | A finished group adds one sorted run of width times fan-in; only the last can be short |
| Inverse.Pigeonhole | crates/leanrows-core/src/sort/inverse.rs:180-184 | As many distinct in-range rows as there are rows are all of them |
| Inverse.InverseBuilder.Push | crates/leanrows-core/src/sort/inverse.rs:97-111 | A pair is recorded in its bucket; it fails only for a value out of range, a row ranked twice or a refused write, which leaves the pair in a full buffer |
| Inverse.InverseBuilder.FullSpills | crates/leanrows-core/src/sort/inverse.rs:97-111 | A pair for a full buffer would be written to the next bucket's first place, or past the end of the array if there is no next bucket |
| Inverse.InverseBuilder.Flush | crates/leanrows-core/src/sort/inverse.rs:113-129 | A bucket's buffer goes to its own region; it fails only if the bucket has more pairs than rows or the write is refused, and then changes nothing |
| Inverse.InverseBuilder.RegionsApart | crates/leanrows-core/src/sort/inverse.rs:87-94 | Bucket regions of the pairs file and of the map never overlap |
| Inverse.InverseBuilder.FinishCollecting | crates/leanrows-core/src/sort/inverse.rs:132-140 | It fails only if the pushed rows are not a permutation or a write is refused, and then can be done again; on success every pair is in its bucket's region |
| Inverse.InverseBuilder.PlacePairs | crates/leanrows-core/src/sort/inverse.rs:163-186 | Placing a chunk fills each row's own slot; it fails only for a row ranked twice |
| Inverse.InverseBuilder.WriteBlock | crates/leanrows-core/src/sort/inverse.rs:189-207 | Each row of the block now has the rank it was pushed with, so no empty marker is left, and no other row of the map changes |
| Inverse.InverseBuilder.Place | crates/leanrows-core/src/sort/inverse.rs:144-209 | The map is complete exactly when the last bucket is placed, and then holds the rank pushed for every row; no finished block keeps an empty marker; an invalid pair means a row was ranked twice; a failed read, or a write that fails part of the way, can be done again |
| Inverse.BuildMap | crates/leanrows-core/src/sort/inverse.rs:87-209 | For any bucket and buffer size collecting and placing succeed if and only if the pushed pairs rank every row once, and then the map holds each row's rank and no empty marker |
| SortSpec.ShownBeforeTransitive | crates/leanrows-core/src/sort/key.rs:447-508 | The order rows are to be shown in, stated on rows and decoded fields alone, is transitive |
| SortSpec.ShownBeforeAsymmetric | crates/leanrows-core/src/sort/key.rs:447-508 | and asymmetric |
| SortSpec.EveryRowListed | crates/leanrows-core/src/sort/session.rs:662-702 | A sorted order lists every row of the source |
| SortSpec.SortedFileIsOrder | crates/leanrows-core/src/sort/session.rs:686-699 | A sorted permutation of the descriptors gives an order map that lists each record once, with its true span, strictly increasing |
| SortSpec.SortedOrderIsUnique | crates/leanrows-core/src/sort/session.rs:250-288 | A source and request have one sorted order, so it does not depend on batch size, fan-in, step size or slicing |
| SortMeaning.TextIsSorted | crates/leanrows-core/src/sort/key.rs:447-508 | In every sorted order by text, of two rows the earlier has the field that is a proper beginning of the other's or has the smaller byte where they first differ, when descending the other way round; equal fields keep the order of the source |
| SortMeaning.NumbersAreSorted | crates/leanrows-core/src/sort/key.rs:447-508 | In every sorted order by number the values of the literals written do not fall when ascending nor rise when descending; equal values keep the order of the source |
| SortMeaning.GroupsAreSorted | crates/leanrows-core/src/sort/key.rs:447-456 | In both directions numbers come before other text and text before blank keys, which keep the order of the source |
| SortMeaning.OtherTextIsSorted | crates/leanrows-core/src/sort/key.rs:487-508 | What is neither number nor blank is sorted as text is |
| Storage.Record | crates/leanrows-core/src/sort/storage.rs:612-633 | A record read is the file's, even through a page spoilt by a failed load, as long as the page claims another place; it is refused as invalid only if its page is charged with records that are not there; after a failed load the same record may be asked for again |
| Storage.Append | crates/leanrows-core/src/sort/storage.rs:383-393 | The charge comes before the bytes: over quota nothing changes, and a refused write leaves the charge without the record |
| Storage.EveryRecordReadable | crates/leanrows-core/src/sort/storage.rs:612-633 | Every record of a file can be read if and only if the file is charged with just what it holds or ends on a page boundary |
| Storage.AfterFailedLoad | crates/leanrows-core/src/sort/storage.rs:615-625 | After a failed load, whatever it overwrote, another record is read right for certain if and only if it does not lie on the page still claimed |
| Storage.SpoiltPageMisleads | crates/leanrows-core/src/sort/storage.rs:615-632 | A file of 513 records where a failed load of the last one makes the page give it for the first, while reading it again is right |
| SortSession.SortSession.Locate | crates/leanrows-core/src/sort/session.rs:320-324 | Locating under a budget ends in the descriptor of the pending record, its key located |
| SortSession.SortSession.BuildKey | crates/leanrows-core/src/sort/session.rs:325-333 | A finished key adds the next record's true descriptor to the batch; a failed read and a number out of range leave a session that can be advanced again |
| SortSession.SortSession.FeedScan | crates/leanrows-core/src/sort/session.rs:354-382 | Feeding the scanner takes up the next record, or consumes bytes and none |
| SortSession.SortSession.FinishScan | crates/leanrows-core/src/sort/session.rs:352-353 | The end of the source takes up the last record, if any |
| SortSession.SortSession.Compare | crates/leanrows-core/src/sort/session.rs:389-411 | A suspended comparison belongs to the very pair asked about; the answer is the key order, none comes only when the budget is spent, and a failed read of the source leaves it to be taken up again |
| SortSession.SortSession.ChooseSide | crates/leanrows-core/src/sort/session.rs:447-457 | The side taken is the one the key order allows; a suspended choice changes nothing else |
| SortSession.SortSession.MergeOne | crates/leanrows-core/src/sort/session.rs:437-473 | A turn of the batch sort keeps the batch a permutation with sorted runs, or waits in mid-comparison for the same pair |
| SortSession.SortSession.EndBatchPass | crates/leanrows-core/src/sort/session.rs:428-436 | The end of a pass over the batch doubles the width of its sorted runs |
| SortSession.SortSession.WriteOne | crates/leanrows-core/src/sort/session.rs:415-422 | Writing the sorted batch appends its next record to the run file; a write that the quota or the disk refuses can be made again |
| SortSession.SortSession.EndBatch | crates/leanrows-core/src/sort/session.rs:422-425 | A written batch is one more run; all before it are full |
| SortSession.SortSession.LoadRun | crates/leanrows-core/src/sort/session.rs:504-509 | The head of a run is the file's record; a failed load leaves the page fit to be asked for the same record, and no other page changes |
| SortSession.SortSession.StartGroup | crates/leanrows-core/src/sort/session.rs:579-600 | The next group's runs are loaded and its tree is ready to be built; a load that fails leaves the group to be started again, with every page fit to be asked for its head |
| SortSession.SortSession.Play | crates/leanrows-core/src/sort/session.rs:612-631 | The winner of a node is the child whose head sorts first; a suspended match waits for the same pair |
| SortSession.SortSession.PlayNode | crates/leanrows-core/src/sort/session.rs:526-536 | A node played in building or replaying is finished, and the stage moves on |
| SortSession.SortSession.EmitOne | crates/leanrows-core/src/sort/session.rs:537-562 | The least head is appended to the pass file and its run's next record loaded; when the write or the load fails the head is gone and the session is stuck |
| SortSession.SortSession.StuckIsNotValid | crates/leanrows-core/src/sort/session.rs:514-557 | A session whose winner's head or whose pass file is gone does not meet the invariant |
| SortSession.SortSession.EndGroup | crates/leanrows-core/src/sort/session.rs:539-543 | The pass file has one more wide sorted run |
| SortSession.SortSession.EndPass | crates/leanrows-core/src/sort/session.rs:514-519 | A pass has written exactly all records, in sorted runs wider by the fan-in |
| SortSession.SortSession.BeginDiskMerge | crates/leanrows-core/src/sort/session.rs:475-503 | Another pass begins exactly when more than one run is left; the pass is counted before its file is made, so a failed creation is counted too; a start that fails changes neither the run file nor the phase |
| SortSession.SortSession.HandOverAll | crates/leanrows-core/src/sort/session.rs:337-340 | When the first pass, or the maps, cannot be started after extraction, the session is still at the end of extraction and can be advanced again |
| SortSession.SortSession.PassOver | crates/leanrows-core/src/sort/session.rs:514-520 | When the next pass, or the maps, cannot be started after a pass, the pass file is no longer where the code looks for it and the session is stuck |
| SortSession.SortSession.BeginMaps | crates/leanrows-core/src/sort/session.rs:632-661 | The one run left is a sorted permutation of all descriptors, after the least number of passes; the sort's buffers are freed first, also when the maps cannot be made |
| SortSession.SortSession.RankOne | crates/leanrows-core/src/sort/session.rs:686-700 | The next rank is written to the order map and pushed with its row; the pair is never found invalid. The invariant survives a failing load or order write and not a failing pair write, after which the order map is one rank ahead and the pair's bucket full |
| SortSession.SortSession.EndRanks | crates/leanrows-core/src/sort/session.rs:665-678 | With all ranks written the pairs are collected; they are never found incomplete, and a flush that fails can be made again |
| SortSession.SortSession.PlaceSome | crates/leanrows-core/src/sort/session.rs:679-684 | Placing ends in the complete inverse map; no row is ever found ranked twice, and a failed read or write can be made again |
| SortSession.SortSession.MergeTurn | crates/leanrows-core/src/sort/session.rs:512-573 | One turn of the merge; a stuck session answers every further one with invalid scratch data and stays stuck |
| SortSession.SortSession.Step | crates/leanrows-core/src/sort/session.rs:272-278 | One turn in any phase, with any one scratch operation failing, keeps the session's invariant and brings it strictly nearer its end, or fails. After a failing operation the invariant holds if and only if that was not a write or load of a merged record, a stage that could not be started after a merge pass, or a pair write. After any other error it holds too, except that a merged run whose last page is charged with more than it holds may leave the session stuck. A stuck session fails forever. The source fails only when disturbed |
| SortSession.SortSession.Advance | crates/leanrows-core/src/sort/session.rs:250-288 | The same for a whole call, over any failing scratch operations, short reads and cancellations: unless cancelled, failed or already complete it strictly decreases the work left; the session can be advanced again after an error exactly as for a step; invalid scratch data is reported only by a stuck session or one whose run file was charged with a write that failed; a number is out of range only if some record's key is |
| SortSession.SortSession.Run | crates/leanrows-core/src/sort/session.rs:250-288 | Repeated calls end, in a cancellation, one of those errors or a complete sort: its order map is the source's sorted order, its inverse map undoes it, and the passes reported are the least needed plus those whose file could not be created before. Undisturbed, a sort completes if and only if every numeric key's exponent fits, and fails with the range error otherwise |
| SortSession.SortSession.IntoOrder | crates/leanrows-core/src/sort/session.rs:302-316 | A complete sort, and no other, is handed over unless the source changed or memory is refused: its sorted order and inverse, after the least number of passes p with batch capacity times fan-in^p at least the record count; passes reported beyond that are those whose file could not be created |
| SortSession.Open | crates/leanrows-core/src/sort/session.rs:156-243 | A session starts valid; zero batch, fan-in below two and zero step are refused, and else only memory |
| SortSession.AfterFailedEmit | crates/leanrows-core/src/sort/session.rs:545-557 | Whatever the merge, if its winner cannot be written the step fails with that error and each further one with invalid scratch data |
| SortSession.StuckExample | crates/leanrows-core/src/sort/session.rs:545-557 | The two lines a and b, merged: the first write fails, and so do both further steps |
| SortSession.LookupsInvert | crates/leanrows-core/src/sort/storage.rs:445-487 | The rank of the row at a rank is that rank, the row at the rank of a row is that row, and spans are the records' own; a map of another length than the count is refused |
| Codec.EntryRoundTrips | crates/leanrows-core/src/query.rs:1414-1435 | A hit or order-map entry of 24 bytes is read back as it was written |
| Codec.DescriptorRoundTrips | crates/leanrows-core/src/sort/storage.rs:575-592 | A descriptor of 128 bytes is read back as it was written exactly when it is sound; otherwise it is refused |
| Codec.BelievedIsWritten | crates/leanrows-core/src/sort/storage.rs:635-674 | Whatever is accepted is what writing that descriptor gives, up to the unused bytes |
| Codec.StoredDescriptorsReadBack | crates/leanrows-core/src/sort/storage.rs:575-674 | Every descriptor the sort builds fits its fields and is accepted when read back |
| Codec.RecordAt | crates/leanrows-core/src/sort/storage.rs:612-625 | Record i of a file of equal records is the bytes at i times their size |
| Codec.LittleEndian | crates/leanrows-core/src/query.rs:1414-1435 | Byte i of a stored number is the number divided by 256 i times, modulo 256 |
| Ledger.SortResources.Reserve | crates/leanrows-core/src/sort/storage.rs:57-91 | A lease is granted exactly when its counter stays within the limit, with the error of its kind otherwise; the ledger stays balanced and peaks exact |
| Ledger.SortResources.HandOver | crates/leanrows-core/src/sort/storage.rs:181-182 | Moving one lease into another changes no counter |
| Ledger.SortResources.Grow | crates/leanrows-core/src/sort/storage.rs:179-184 | A lease grows by the count or stays as it was, with its counter |
| Ledger.SortResources.DropLease | crates/leanrows-core/src/sort/storage.rs:186-195 | Dropping gives back exactly what the lease held; the counter never underflows |
| Ledger.SortResources.CreateOwner | crates/leanrows-core/src/sort/storage.rs:229-261 | A new owner retains nothing and changes no counter |
| Ledger.SortResources.CreateFile | crates/leanrows-core/src/sort/storage.rs:355-382 | A new file is charged its write buffer and no disk, or nothing if it fails |
| Ledger.SortResources.DropFile | crates/leanrows-core/src/sort/storage.rs:410-422 | A deleted file's charge is given back; an undeletable one's moves to its owner, and the disk counter stays |
| Ledger.SortResources.Retain | crates/leanrows-core/src/sort/storage.rs:415-420 | Handing a charge to the owner keeps the ledger balanced |
| Ledger.SortResources.DropOwner | crates/leanrows-core/src/sort/storage.rs:262-273 | Retained charges are given back, or wait for a retry exactly when a slot and its memory can be had, or stay charged for good; without failures the ledger stays clean |
| Ledger.SortResources.DeferCleanup | crates/leanrows-core/src/sort/storage.rs:147-167 | A charge waits in a slot exactly when one is free and its memory can be had |
| Ledger.SortResources.RetryCleanup | crates/leanrows-core/src/sort/storage.rs:132-146 | Exactly the slots whose deletion succeeds are released, with both their charges |
| Ledger.SortResources.OnlyAbandonedIsLost | crates/leanrows-core/src/sort/storage.rs:165-167 | With all leases dropped and nothing waiting, the disk counter is what was abandoned and the memory counter is zero |
| Ledger.SortResources.ReturnsToZero | crates/leanrows-core/src/sort/storage.rs:186-195 | With no failed deletion outstanding and all leases dropped, both counters are zero |
| Literal.FallBack | crates/leanrows-core/src/query.rs:460-462 | Falling back along the table skips no needle prefix that could still be extended |
| Literal.Extend | crates/leanrows-core/src/query.rs:463-465 | Where it stops gives the longest needle prefix that ends the text with the new byte |
| Literal.NextFailure | crates/leanrows-core/src/query.rs:436-445 | Each table entry is the longest proper border of its prefix |
| Literal.Compile | crates/leanrows-core/src/query.rs:415-452 | The needle is folded and its whole failure table exact; only an empty needle or memory is refused |
| Literal.AdvanceMatcher | crates/leanrows-core/src/query.rs:454-471 | The state stays the longest proper needle prefix that ends the text read, and a match is reported exactly when the needle ends it |
| Hits.AllHitsAreExact | crates/leanrows-core/src/query.rs:1113-1161 | The hits listed are exactly the occurrences inside records, overlapping ones included, in order, each once |
| Hits.HitsAreMatches | crates/leanrows-core/src/query.rs:415-459 | For every needle as the caller gave it: a span is a hit if and only if it lies in a record and, in an exact search, equals the needle byte for byte, in the other mode with each byte equal or the same letter of the other case |
| Hits.HitStaysInRecord | crates/leanrows-core/src/query.rs:1-6 | No hit overlaps a record other than its own |
| Hits.OneHitPerPeriod | crates/leanrows-core/src/query.rs:454-471 | Bytes no longer than the needle's length less its longest border hold the end of one occurrence at most |
| Hits.PeriodIsLeast | crates/leanrows-core/src/query.rs:454-471 | For every needle without a newline there is a line with two hits just that far apart |
| QuerySession.QuerySession.AppendHit | crates/leanrows-core/src/query.rs:643-662 | A hit is stored unless the file would outgrow its quota, reported with exact figures, or the disk refuses the write; file and page stay in step |
| QuerySession.QuerySession.CachedHit | crates/leanrows-core/src/query.rs:1204-1208 | A hit found in the page is the stored one |
| QuerySession.QuerySession.ReadPage | crates/leanrows-core/src/query.rs:918-935 | The page holds the stored hits from the one asked for on, as many as there are and fit; also after a failed read it holds only stored hits |
| QuerySession.QuerySession.ReadHit | crates/leanrows-core/src/query.rs:941-952 | Reading a hit gives the stored hit of that index, or none past the last, whatever the page held before |
| QuerySession.QuerySession.MatchByte | crates/leanrows-core/src/query.rs:1129-1150 | Matching a byte stores exactly the hit it completes, unless the file is full or the write fails |
| QuerySession.QuerySession.MatchPendingBytes | crates/leanrows-core/src/query.rs:1113-1161 | A chunk adds exactly the hits that end in the bytes matched, to whatever is stored; which write fails decides the outcome exactly. After a failed write the hits before it are stored and the cursor has not moved, so matching the chunk again stores them again |
| QuerySession.QuerySession.MoveCursor | crates/leanrows-core/src/query.rs:1163-1177 | Saving the cursor after some bytes accounts for exactly their hits |
| QuerySession.QuerySession.PeriodIs | crates/leanrows-core/src/query.rs:436-471 | The period work is compared with is the needle's length less its longest border |
| QuerySession.FailuresAreSafe | crates/leanrows-core/src/query.rs:1146-1149 | Every failing write of a chunk leaves nothing of it stored if and only if there is no second write to fail: with room in the quota, if and only if the chunk has at most one hit |
| QuerySession.FailedWriteRepeats | crates/leanrows-core/src/query.rs:1113-1161 | The record aa, taken up for the needle a and matched with a two-byte buffer: the second write fails, the record's bytes are matched again, and the file holds the first hit twice |
| QuerySession.QuerySession.AdvancePending | crates/leanrows-core/src/query.rs:1094-1111 | The same under a work budget and short reads; chunks no longer than the needle's period never leave hits behind |
| QuerySession.QuerySession.QueueRecord | crates/leanrows-core/src/query.rs:1048-1061 | The record taken up is the next one and nothing of it is matched yet |
| QuerySession.QuerySession.AdvanceScanner | crates/leanrows-core/src/query.rs:1063-1092 | Scanning under a budget takes up the next record or consumes bytes, and loses none |
| QuerySession.QuerySession.FinishScan | crates/leanrows-core/src/query.rs:858-866 | The end of the source takes up the last record, if any, and keeps its diagnostic |
| QuerySession.QuerySession.StoredIsExact | crates/leanrows-core/src/query.rs:803-876 | Unless a write failed with hits of its chunk stored: complete means the stored hits are all hits; stopped by the quota, exactly the first (quota − 48) / 24, and the rejected one is the next; otherwise a prefix |
| QuerySession.QuerySession.RepeatsAreStored | crates/leanrows-core/src/query.rs:803-876 | A complete search has all hits, in order and each once, if and only if no write failed with hits of its chunk stored; otherwise those hits are stored twice |
| QuerySession.QuerySession.TakeTurn | crates/leanrows-core/src/query.rs:825-870 | A turn keeps the session's invariant and, unless it ends the call, strictly decreases the work left |
| QuerySession.QuerySession.Advance | crates/leanrows-core/src/query.rs:803-876 | Over any budgets, short reads, cancellations and errors the session stays valid and a running search gets nearer its end; the stored hits are exact unless a write failed with hits of its chunk stored, which no work budget or buffer within the needle's period allows. An undisturbed step succeeds; once the source has changed every later one fails |
| QuerySession.QuerySession.Run | crates/leanrows-core/src/query.rs:803-876 | Repeated steps end. An undisturbed search stores exactly the first hits its quota has room for, and is complete exactly when those are all |
| QuerySession.Open | crates/leanrows-core/src/query.rs:762-795 | A search is for the needle folded as asked, so that its hits are the matches of the needle given; exactly zero limits and a quota below the header are refused as such, and an empty needle |
| Index.AdaptiveIndex.Compact | crates/leanrows-core/src/index.rs:98-110 | Compaction in place keeps exactly every other entry and doubles the stride up to 64 bits |
| Index.AdaptiveIndex.Observe | crates/leanrows-core/src/index.rs:69-96 | A boundary is refused exactly when it regresses; otherwise a full index is thinned first and the boundary kept when a stride away; entries stay rising and within capacity |
| Index.AdaptiveIndex.Nearest | crates/leanrows-core/src/index.rs:112-115 | The lookup is the last entry at or before the row |
| Index.NewIndex | crates/leanrows-core/src/index.rs:43-67 | An index starts with the origin; capacity below two and stride zero are refused |
| Index.ThinnedSamples | crates/leanrows-core/src/index.rs:98-110 | Thinning a full sample of the rows 0, s, 2s, … leaves the sample of stride 2s, also when the stride saturates, and 2s·(capacity − 1) is at most twice the last row |
| Index.AddedSamples | crates/leanrows-core/src/index.rs:84-93 | The next consecutive row is kept exactly when it is the next multiple of the stride |
| Index.SampledRows | crates/leanrows-core/src/index.rs:69-96 | A recorded row is in the index exactly when the stride divides it, at its true offset, and nothing else is |
| Index.NearestIsClose | crates/leanrows-core/src/index.rs:112-115 | A lookup lands less than one stride before the row, at its true start |
| ScanSession.ScanSession.ObserveRecord | crates/leanrows-core/src/session.rs:483-499 | Counting a record never fails and keeps the index exact for the records counted |
| ScanSession.ScanSession.FeedChunk | crates/leanrows-core/src/session.rs:318-335 | A chunk's records are counted in order, none lost |
| ScanSession.ScanSession.Finalize | crates/leanrows-core/src/session.rs:464-480 | The end of the source counts the last record and sets the diagnostic |
| ScanSession.ScanSession.Step | crates/leanrows-core/src/session.rs:263-352 | Whatever the outcome the index stays exact; figures are exact and within the quantum; progress consumes bytes; a changed source poisons the session; an undisturbed step makes progress or completes the scan |
| ScanSession.ScanSession.Run | crates/leanrows-core/src/session.rs:263-352 | Repeated undisturbed steps end with every record counted and the one-pass diagnostic |
| ScanSession.ScanSession.LookupIsExact | crates/leanrows-core/src/index.rs:112-115 | In every reachable state a lookup is less than a stride back at a true record start, entries stay within capacity, and the stride is at most max(initial, 2·last row / (capacity − 1)) |
| ScanSession.ScanSession.IndexIsExact | crates/leanrows-core/src/session.rs:483-499 | In every reachable state the index holds exactly the counted rows the stride divides, with their true offsets |
| ScanSession.ScanSession.FinishedScanIsWhole | crates/leanrows-core/src/session.rs:464-480 | A finished scan has counted every record and has the one-pass diagnostic |
| ScanSession.Open | crates/leanrows-core/src/session.rs:224-253 | A scan starts valid; exactly senseless limits are refused as such, and else only memory |
| Viewport.SpanCollector.Accept | crates/leanrows-core/src/viewport.rs:150-166 | The collector keeps exactly the rows of the window seen so far and asks to stop exactly when it is full |
| Viewport.FeedCollector | crates/leanrows-core/src/viewport.rs:275-299 | Feeding keeps scanner and collector at the same row; it stops exactly when the window is full |
| Viewport.CollectWindow | crates/leanrows-core/src/viewport.rs:195-257 | From any true checkpoint the rows collected are first..first+limit of the full scan, fewer at the end; end of file and diagnostic are reported exactly when the window reaches the last row; it fails only when disturbed |
| Viewport.FinishWindow | crates/leanrows-core/src/viewport.rs:243-257 | At the end of the source the window takes in the last record and the diagnostic |
| Viewport.PreviewsArePrefixes | crates/leanrows-core/src/viewport.rs:314-346 | Each preview is a prefix of its own record, flagged exactly when cut, cut only by a limit that is used up, and the payload stays within its limit |
| Viewport.FillPreview | crates/leanrows-core/src/viewport.rs:322-338 | However short the reads, the buffer filled is the source's bytes |
| Viewport.MaterializePreviews | crates/leanrows-core/src/viewport.rs:301-348 | Every row collected is shown as far as its limit and the payload left by the rows before allow |
| Viewport.ReadViewport | crates/leanrows-core/src/viewport.rs:173-273 | A view is that slice of the full scan with its previews; a checkpoint past the row is refused, and undisturbed nothing else is |
| Viewport.ViewRows | crates/leanrows-core/src/viewport.rs:173-273 | From the index of any partial scan the view shows the rows the full scan finds; the checkpoint is never refused, and undisturbed the view never fails |
| Calendar.YearOfEraIsExact | crates/leanrows-core/src/xlsx/cell.rs:104-107 | The division formula gives the year every day of a 400-year era falls in |
| Calendar.DateRoundTrips | crates/leanrows-core/src/xlsx/cell.rs:90-117 | Every valid Gregorian date comes back from its day count |
| Calendar.DayRoundTrips | crates/leanrows-core/src/xlsx/cell.rs:90-117 | Every day count is that of the valid date it converts to |
| Calendar.DaysAreConsecutive | crates/leanrows-core/src/xlsx/cell.rs:101-117 | Consecutive day counts are consecutive calendar days |
| Calendar.DayZero | crates/leanrows-core/src/xlsx/cell.rs:89-117 | Day zero is 1970-01-01 |
| Calendar.LaterDaysAreLater | crates/leanrows-core/src/xlsx/cell.rs:101-117 | Later day counts are later dates |
| Calendar.SerialsIncrease | crates/leanrows-core/src/xlsx/cell.rs:120-132 | In the 1900 system later serials show later dates, serial 0, serial 60 and negative serials included |
| Calendar.ShownSerials | crates/leanrows-core/src/xlsx/cell.rs:85-138 | A date is shown exactly for serials 0 to 2958465 in the 1900 system and −1460 to 2957003 in the 1904 system |
| Calendar.ShownDates | crates/leanrows-core/src/xlsx/cell.rs:120-136 | The date shown for every serial: 1900-01-00 at 0, 1900-02-29 at 60, else the true date that many days after 1900-01-01 or 1900-03-01, counted day by day; in the 1904 system after or before 1904-01-01 |
| Scroll.ThumbFits | crates/leanrows-win32/src/scroll.rs:53-74 | The thumb lies on its track and no intermediate product leaves 64 bits |
| Scroll.LengthIsProportional | crates/leanrows-win32/src/scroll.rs:59-62 | The thumb's length is the track's share that the page is of the range, in whole pixels, but at least the least length that fits the track |
| Scroll.EndsMeet | crates/leanrows-win32/src/scroll.rs:53-89 | There is a thumb exactly when the range is longer than the page; the first position and the last page's start put it at the ends of the track, and those mean them |
| Scroll.PositionFits | crates/leanrows-win32/src/scroll.rs:80-89 | The position read back is within the range for any start, and no product leaves 64 bits |
| Scroll.PositionsReturn | crates/leanrows-win32/src/scroll.rs:53-89 | Every position survives being shown and read back if and only if the thumb travels at least as many pixels as there are steps |
| Scroll.StartsReturn | crates/leanrows-win32/src/scroll.rs:53-89 | Every thumb start survives being read and shown again if and only if there are at least as many steps as pixels to travel |
| Scroll.BothGrow | crates/leanrows-win32/src/scroll.rs:53-89 | Both mappings are monotone |

## Left out

- SortSession.SortSession.constructor: the fan-in is at most 2^32 − 1, because the code marks an empty tree node with the 32-bit maximum, which is also the number of the run after that.
- SortSession.Open: the same bound; batch capacity fits in 64 bits as on the original's platforms.
- SortSession.SortSession.Step: one scratch operation fails in a step at most, since the step ends there; a session whose pair write failed is not stepped further, because the code's next push writes outside its buffer.
- SortSession.SortSession.BeginDiskMerge: emptied pages are new pages; creating the two map files, the bucket buffers and the small tree is one operation that succeeds or fails; a file left behind by a failed creation makes the next creation fail, which is one more failing operation.
- Storage.Append: a record whose buffered write fails is not in the file, also when the buffer had taken part of it.
- Inverse.InverseBuilder.Push: works on pairs rather than bytes, with one sequence per bucket for the shared write buffer; sizes its constructor refuses are preconditions.
- Inverse.InverseBuilder.Flush: bytes a failed write left behind lie past what the bucket has written and are written over; a write of no bytes is a refused one.
- Inverse.BuildMap: zero bucket and buffer sizes, which the constructor refuses, are excluded.
- Storage.Record: files are sequences of records, and a record torn by a failed load is any record; `Codec` relates records to bytes.
- QuerySession.FailedWriteRepeats: matches the bytes of a record taken up without a scan, rather than calling advance.
- QuerySession.QuerySession.AppendHit: the file is a sequence of hits; bytes a failed write left behind lie past the end and are written over.
- Scanner.BoundaryScanner.Feed: one class for the delimited and the line scanner, whose loops differ only in the state they keep; the callback is the number of the record it stops at; offsets cannot overflow because the source's size is a 64-bit number.
- ScanSession.ScanSession.FeedChunk: records are counted after the chunk is scanned rather than in the callback; counting never fails, so the callback never stops the scan.
- Viewport.FeedCollector: the collector's stop is computed before the chunk is scanned, for the same reason.
- Viewport.ReadViewport: takes the checkpoint a lookup returned, and demands that it is a record's start as its documentation does.
- WinnerTree.PlayKeepsValid: the tree and the batch merge are values held in the session's fields, replaced rather than updated in place.
- Ledger.SortResources.Reserve: each operation is one atomic step; leases, owners and files of the whole process are listed in the ledger so that totals can be stated.
- Calendar.ShownSerials: the date as three numbers, not the text written; 64-bit overflow of day counts far outside the years shown is not modelled.
- Projection.ProjectDelimitedRecord: does not classify the decoded bytes as UTF-8.
- The byte-sampled index in use: `Index.AdaptiveIndex` has both samplings, but exactness is stated for rows, the one a scan uses.
- Memory and disk figures of the sort session: reservations succeed or fail, and `Ledger` accounts for them separately.
- How many bytes a read asks for: a read may return fewer anyway, and buffers are not allocated.
- Reading a single preview by span, next and previous hit index, progress reports: settled by reading them.
- Source fingerprints, path checks, file identity, scratch directories, their recovery and deletion: operating-system I/O.
- The rest of the XLSX reader, floating-point serials, number-format codes, UTF-16 escaping.
- The Win32 interface, accessibility, shortcuts, mailboxes, sort coordination, zoom levels, the row window and the memory budget.
