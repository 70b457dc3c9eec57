# Custom-delimiter transcript reader: a Dafny model

This project models the core of `process_transcripts.py` and proves properties of that model. The core has three parts:

- **`read_custom_format`.** The reader for gzip-compressed call-transcript files. A decoded file is one character stream in which a backtick ends a row and a tilde separates fields. The text before the first backtick is the header; it is read by a loop of its own, which neither flushes nor tests `nrows`. Every later row that is not blank becomes a record. Records are buffered into chunks of `chunksize`. Each full chunk becomes a frame, the leftover chunk becomes a last frame, and the frames are concatenated into one table. `usecols` projects the records onto named header columns, and `nrows` stops reading once that many records have been kept.
- **Format selection.** The comma-separated answer to the "formats to save" prompt is mapped through `format_map` (`'1'` → parquet, `'2'` → csv, `'3'` → hdf).
- **`save_processed_data`.** Its default of `['parquet']` and its loop over the formats, which builds the result dictionary of output paths.

The project has these modules:

- `Wrappers` (`wrappers.dfy`): `Option` and `Result`.
- `StrOps` (`str_ops.dfy`): Python's `str.strip()` and `str.split(sep)`, with their round trips.
- `Batching` (`batching.dfy`): the chunk arithmetic. It defines concatenating frames (`Flatten`) and the unique cut of a record list into batches of a fixed size (`Batches`).
- `CustomFormat` (`custom_format.dfy`): the reader. It is written twice:
  - as a functional specification, `Emitted`: split the stream on backticks, drop the header and the unterminated tail, keep the non-blank rows, split each on tildes, project, and apply the row limit;
  - as imperative methods that follow the source's two character loops, its counters and its chunk flushing. `ReadCustomFormat` is proved to produce exactly `Emitted`. For `chunksize >= 1` it is cut into `Batches` of `chunksize`, with the chunk counter equal to the number of full batches.
- `SaveFormats` (`save_formats.dfy`): the format selection, the save decision and the save loop.

The model performs no I/O: the decoded character stream is a parameter. Decompression and the file handle are not part of this model. The answers to the `input()` prompts and the base file name are parameters too.

Some behaviour comes from the code and is modelled as written:

- **`nrows`.** The stop test `if nrows and row_count >= nrows` runs after every backtick the row loop reads (not the header's).
  - `None` and `0` are falsy and mean "no limit".
  - A positive value keeps `min(nrows, available)` records.
  - A negative value is truthy and already reached, so reading stops at the backtick that ends the first row after the header; at most that row's record is kept.
- **`chunksize`.**
  - For `chunksize >= 1`, every frame flushed inside the loop holds exactly `chunksize` records, and the leftover frame is shorter and non-empty.
  - For `chunksize < 1`, the flush test `len(current_chunk) >= chunksize` always holds. Every backtick after the header's then flushes a frame of zero or one record. The concatenation fails only when the stream has no terminated row after the header.
- **Failure.** `pd.concat([])` raises. The model returns `Failure(NoObjectsToConcatenate)` exactly when no frame was produced.
- **An empty format selection.** An empty selection saves nothing: `process_transcripts.py:215-221` prints "No valid formats selected. Data not saved." and never calls `save_processed_data`. The model has this in `SaveChoice`. The default `['parquet']` of `save_processed_data` applies only when `formats` is `None`, which this caller never passes.
- **Defaults.** `ReadCustomFormat` has the source's defaults: `nrows` and `usecols` are `None`, and `chunksize` is 100000.

## Model

| member | source | states |
|---|---|---|
| StrOps.Strip | process_transcripts.py:71 | `s.strip()`: the result is a contiguous piece of the input with only whitespace (Python's `isspace` set) removed around it. It neither starts nor ends with whitespace, and it is empty exactly when the input is all whitespace. |
| StrOps.StripTrimmed | process_transcripts.py:90 | A string that neither starts nor ends with whitespace is its own strip. |
| StrOps.SplitParts | process_transcripts.py:71 | `s.split(sep)` has one part more than `s` has separators, and no part contains the separator. |
| StrOps.JoinSplit | process_transcripts.py:91 | Joining the parts of a split with the separator gives the string back. |
| StrOps.SplitJoin | process_transcripts.py:212 | Splitting parts that contain no separator, once joined, recovers exactly those parts. |
| StrOps.SplitAround | process_transcripts.py:89 | Splitting around one separator splits each side independently. |
| StrOps.SplitNoSep | process_transcripts.py:86-87 | A string with no separator is one part. |
| StrOps.SplitSnoc | process_transcripts.py:89-113 | Reading one more character either starts a new part (the separator) or extends the last part. This is what the character-at-a-time scanner relies on. |
| StrOps.SplitThree | process_transcripts.py:91 | Three separator-free pieces joined by two separators split back into the three pieces. |
| Batching.Batches | process_transcripts.py:100-104 | The batches of a record list are empty exactly when the list is empty. |
| Batching.BatchesFlatten | process_transcripts.py:123 | Concatenating the batches gives the records back, so the cut into chunks is invisible in the combined table. In the source this holds only for rows as wide as the header (see the `pd.DataFrame` line under "## Left out"). |
| Batching.BatchSizes | process_transcripts.py:101-104 | Every batch holds between 1 and `chunksize` records, and all but the last hold exactly `chunksize`. |
| Batching.FlattenFullLength | process_transcripts.py:101-105 | Frames of exactly `chunksize` records hold `chunksize` times their number. |
| Batching.BatchesOfFull | process_transcripts.py:100-120 | Full frames followed by a shorter leftover are the batches of their concatenation: the partition is unique. |
| Batching.BatchCount | process_transcripts.py:105 | The number of full frames is the record count divided by `chunksize`, rounded down, stated as the bounds `k*q <= n < k*q + k`. |
| Batching.Flush | process_transcripts.py:101-105 | Flushing a chunk that has reached the chunk size keeps the frames' shape and appends its records to their concatenation. |
| Batching.Leftover | process_transcripts.py:117-120 | Once the leftover chunk is appended when non-empty, the frames concatenate to the records. For `chunksize >= 1` they are exactly `Batches`, and the in-loop count is the number of full frames. For `chunksize < 1` there is no leftover and every frame holds at most one record. |
| CustomFormat.HeaderTextIsPrefix | process_transcripts.py:64-69 | The header text contains no backtick. It is the whole stream when there is no backtick, and otherwise the text before the first one. |
| CustomFormat.HeaderNames | process_transcripts.py:71 | The column names are the tilde-separated pieces of the header text, each stripped. It has exactly as many names as pieces, and the pieces join back to the header text. |
| CustomFormat.StripNames | process_transcripts.py:71 | One name more than the header text has tildes. |
| CustomFormat.IndexOf | process_transcripts.py:73 | `headers.index(col)`: a position holding the name, before which the name does not occur (the first occurrence). |
| CustomFormat.Present | process_transcripts.py:73 | The `if col in headers` filter: a name is kept exactly when it is both requested and in the header, and no more names are kept than were requested. |
| CustomFormat.PresentAppend | process_transcripts.py:73 | The filter distributes over concatenation of requests, so the kept names are in request order, duplicates included. |
| CustomFormat.ColIndices | process_transcripts.py:72-73 | `col_indices` has one entry per requested name present in the header, in request order. Each entry is the first header position holding that name. |
| CustomFormat.TableColumns | process_transcripts.py:72-77 | `used_headers` is the present requested names when `usecols` is truthy, and all header names otherwise. |
| CustomFormat.NonBlankKeeps | process_transcripts.py:90 | A row is kept exactly when it has content after strip (blank rows are dropped). |
| CustomFormat.NonBlankAppend | process_transcripts.py:84-113 | Keeping rows distributes over concatenation, so input order is kept. |
| CustomFormat.NonBlankShorter | process_transcripts.py:90 | No more rows are kept than were read. |
| CustomFormat.MakeRecord | process_transcripts.py:91-95 | A record has one field more than the row has tildes without `usecols`, and one entry per resolved column with it. |
| CustomFormat.RawRecord | process_transcripts.py:91-95 | Without `usecols`, a record is the row split on tildes. Its fields are unstripped and contain no tilde, there is one field more than the row has tildes, and the fields join back to the row. |
| CustomFormat.ProjectedRecord | process_transcripts.py:92-93 | With `usecols`, a record has one entry per resolved column. Entry j is the field at `col_indices[j]`, or None exactly when the row has fewer fields. |
| CustomFormat.Emitted | process_transcripts.py:84-113 | The records read: never more than the non-blank rows after the header for `nrows >= 0`, never more than a positive `nrows`, and at most one for a negative `nrows`. |
| CustomFormat.EmittedShape | process_transcripts.py:91-96 | Every record read has the table's width when `usecols` projects. Otherwise all its fields are present. |
| CustomFormat.RowLimit | process_transcripts.py:108-109 | The records kept are always the first ones of the unlimited read. A positive `nrows` keeps `min(nrows, available)` of them. `None` and `0` impose no limit. A negative `nrows` keeps at most one record: the record of the first row after the header, if that row is not blank. |
| CustomFormat.TrailingTextIgnored | process_transcripts.py:84-87 | Text after the last backtick is never a row: appending backtick-free text to a stream that ends with a backtick changes neither the header, the rows nor the records. |
| CustomFormat.AppendRow | process_transcripts.py:89-99 | On a read without `nrows`, a further terminated row adds exactly its record when it has content, and nothing when it is blank. |
| CustomFormat.Example | process_transcripts.py:64-113 | ``A~B~C`1~2~3`4~5~6` `` and any stream of the same shape give header `[A, B, C]` and the two records `[1, 2, 3]` and `[4, 5, 6]`. |
| CustomFormat.ExampleProjection | process_transcripts.py:72-95 | An example stream with `usecols=['C', 'A']` (distinct header names) gives the columns `[C, A]` and the records `[3, 1]` and `[6, 4]`. |
| CustomFormat.TwoRows | process_transcripts.py:84-113 | On a read without `nrows`, two terminated rows with content after a stream holding only a terminated header give exactly their two records, in order, under that header. |
| CustomFormat.ProjectOnto | process_transcripts.py:72-74 | Requesting `[C, A]` from the header `[A, B, C]` resolves to the positions 2 and 0 and keeps both names. |
| CustomFormat.ProjectRow | process_transcripts.py:90-95 | Projecting a row of three fields onto the positions 2 and 0 gives its third and first fields. |
| CustomFormat.NoRows | process_transcripts.py:65-68 | A stream without a backtick is all header: no rows and no records. |
| CustomFormat.StoppedAt | process_transcripts.py:108-109 | When the loop stops at a backtick, the rows read so far are the first rows of the whole stream. |
| CustomFormat.LimitReached | process_transcripts.py:108-109 | Stopping once `nrows` records have been kept gives exactly the limited records. |
| CustomFormat.ReadToEnd | process_transcripts.py:85-87 | Reaching the end of the stream below the limit means every row was seen. The unterminated tail is not a row. |
| CustomFormat.ReadToLimit | process_transcripts.py:108-109 | Stopping on the limit gives the limited records, with the counter equal to their number. |
| CustomFormat.ScanRowSep | process_transcripts.py:89 | A backtick read in the row loop ends the current row. |
| CustomFormat.ScanChar | process_transcripts.py:112-113 | Any other character extends the current row. |
| CustomFormat.RowEnded | process_transcripts.py:89-99 | Ending a row appends its record when it has content, and nothing otherwise. |
| CustomFormat.ReadHeader | process_transcripts.py:64-69 | The header loop returns the text before the first backtick and consumes that backtick. Without one, it reads to the end. |
| CustomFormat.EndRow | process_transcripts.py:89-106 | One backtick appends the row's record when the row has content and counts it. When the chunk reaches `chunksize` it is flushed as a frame and counted. The buffer invariant (frames and chunk hold the records of the rows so far) is kept. |
| CustomFormat.EndOfRow | process_transcripts.py:89-111 | One backtick in the row loop ends the current row as `EndRow` does, then takes the `nrows` break. When reading goes on, the buffer invariant holds with an empty current row and the count is below a positive limit. When it stops, frames and chunk hold exactly the limited records of the stream. |
| CustomFormat.ReadRows | process_transcripts.py:81-113 | The row loop leaves frames and chunk holding exactly the limited records of the stream's rows. `row_count` is their number, `chunk_count` the number of frames, and the frames have the chunk shape. |
| CustomFormat.ReadCustomFormat | process_transcripts.py:45-126 | The reader's frames concatenate to `Emitted` (chunking is invisible), and `row_count` is its length. For `chunksize >= 1`: the frames are exactly `Batches(Emitted, chunksize)`, and `chunk_count` is the number of full batches. For `chunksize < 1`: each frame holds at most one record, and `chunk_count` is the number of frames. The result is the concatenation. For `chunksize >= 1` it fails exactly when nothing was emitted; for `chunksize < 1`, exactly when no row after the header is terminated. |
| SaveFormats.IsYes | process_transcripts.py:198 | `response.lower() == 'yes'`: the letter-by-letter test holds exactly when the lower-cased answer is `yes`. |
| SaveFormats.LowerYes | process_transcripts.py:198 | An answer lowers to `yes` exactly when it has three characters that lower to `y`, `e` and `s`. |
| SaveFormats.SaveChoice | process_transcripts.py:198-221 | Formats are passed on only after a yes, and then they are a non-empty list of formats that all have a writer. Nothing is passed when the answer is not yes or no format was selected. |
| SaveFormats.Select | process_transcripts.py:211-213 | The selection has no more formats than tokens, and every one has a writer. |
| SaveFormats.SelectMembers | process_transcripts.py:211-213 | A format is selected exactly when some token, once stripped, is a key of `format_map` that maps to it. |
| SaveFormats.SelectAppend | process_transcripts.py:211-213 | Selection distributes over concatenation of tokens, keeping order and duplicates. |
| SaveFormats.Code | process_transcripts.py:205-209 | Every format name with a writer has a menu number that `format_map` maps back to it. |
| SaveFormats.ChoiceRoundTrip | process_transcripts.py:205-213 | Writing the menu numbers of any non-empty list of formats comma-separated selects exactly that list again. |
| SaveFormats.EmptyChoice | process_transcripts.py:211-213 | An empty answer selects no format. |
| SaveFormats.SaveChoiceSpec | process_transcripts.py:198-221 | Data is saved exactly when the answer lowers to `yes` and at least one format is selected. The formats saved are then the selected ones, the default never replaces them, and each writes one file. |
| SaveFormats.AllWritten | process_transcripts.py:24-38 | Every format with a writer writes one file. |
| SaveFormats.DefaultIsParquet | process_transcripts.py:18-19 | Without a format list only the Parquet file is written. An empty list is not None and writes nothing. |
| SaveFormats.SaveProcessedData | process_transcripts.py:18-43 | The files written, in order, are one per format with a writer in the formats or the default. The results dictionary has exactly those formats as keys, each mapped to `processed_data/<base>.<fmt>`. |

## Left out

- Gzip decompression, `pd.io.common.get_handle` and UTF-8 decoding: the input is the decoded character stream.
- `get_file_size`, `os.makedirs`, `os.path.getsize` and the size in megabytes: file I/O and floating point.
- The writers `to_parquet`, `to_csv` and `to_hdf`: file I/O. A write is represented by its output path.
- `pd.DataFrame` construction: a record is a sequence of optional fields, and a frame is a sequence of records. Given a list of rows, pandas sizes each chunk's frame by its widest row. A row with more fields than columns raises. A shorter row is padded only when another row in its chunk is as wide as the header, and a chunk of only short rows raises a column-count error. So with ragged rows the source's result depends on `chunksize`: under header `A~B~C`, the rows `1~2~3` and `4~5` are padded in one chunk but raise with `chunksize=1`. This is library behaviour and is not modelled; the model's records keep each row's own fields.
- `pd.concat` internals, `ignore_index` and `pd.to_datetime`: library behaviour.
- CustomFormat.Concat: a defining stand-in for `pd.concat` (`process_transcripts.py:122-123`). It fails on no frame and otherwise puts the frames' records in order under the used column names; its properties are stated through `ReadCustomFormat`.
- `tqdm` progress bars, `print` and `gc.collect`: side effects without effect on the results.
- The `input()` prompts: their answers are parameters of `SaveChoice`. The "proceed with full processing" answer uses the same comparison as `IsYes`.
- `process_transcript_files`' loop over the two input files and the statistics it prints: pandas aggregation over the reader's output.
- `analyze_file_structure` and `analyze_transcripts.py` (display logic and pandas aggregation): these are not part of this model.
- SaveFormats.SaveProcessedData: for a format name without a writer, the source still calls `get_file_size` on a path it did not write, and whether that raises depends on the file system. The model records no result for it and carries on.
- CustomFormat.ReadCustomFormat: `nrows` and `chunksize` are modelled as integers; other values Python would compare (a float `nrows` or `chunksize`) are not represented.
