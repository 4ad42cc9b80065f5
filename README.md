# Kurator validation: text file splitter and geography vocabulary collector

A Dafny model of two data-wrangling routines of the Kurator validation actors
for Darwin Core archives.

- **Text file splitter** (`Splitter`, `text_file_splitter.dfy`). It reads the first line of a text file
  as its header. The remaining lines (the data rows) go into chunk files of at most `chunksize` rows.
  Each chunk file begins with the header and is named `<workspace>/<filepattern>-<index>.<fileext>`.
  Before each row, the loop asks whether `rowcount % chunksize == 0`, where `rowcount` counts the rows
  already written. If so, it closes the open chunk file and opens the next one. The response reports
  the pattern, the extension, the number of chunk files, the number of data rows and success.
  The loop is the method `SplitIntoChunks`. It is proved equal to a closed-form definition,
  `ChunkFiles`: chunk `i` holds the header and then rows `i*chunksize` up to
  `min((i+1)*chunksize, n)`. Lemmas about `ChunkFiles` prove the rest: the chunk count is the ceiling
  of `n / chunksize`, every chunk starts with the header, chunk sizes, reassembly and distinct file names.
- **Geography vocabulary collector** (`GeogCollector`, `dwc_geog_collector.dfy`). It takes the distinct
  composite geography values of a data file (the candidates) and the values already in the vocabulary
  file. The candidates that are not yet present are the added values. A missing vocabulary file is
  created with the standard header. Only when the header read back equals the standard header does the
  collector append one row per added value: `{geogkey: value, standard: '', checked: 0}`. Otherwise the
  file is left unchanged, `success` is false and `comment` holds the mismatch message, written exactly
  as the source writes it (with no space before "does"). The vocabulary file is a class whose contents
  change in place.
- **Response dictionaries** (`Common`, `common.dfy`). Both scripts fill their response with the same
  index-counter loop over a list of names and a list of values (`BuildResponse`).

Files are sequences of lines. The file system the splitter reads is a map from path to lines. The chunk
files it writes come back as (path, lines) values, in the order they are written. A vocabulary file is a
header plus rows, and each row is a dictionary from column name to text.

What the code does at the points where a reader might expect otherwise:
- The collector computes the existing values (dwc_geog_collector.py:80) before it creates a missing
  vocabulary file (lines 88-89). So for a missing file the existing values are empty and every candidate
  is added.
- A missing input file makes the splitter return no response (Python's `None`, text_file_splitter.py:56-57),
  not an error record.
- The code guarantees that every candidate is an existing value or an added value, never both, and that
  every added value is a candidate. The existing values may hold values the input lacks.

## Model

| member | source | states |
|---|---|---|
| Common.BuildResponse | src/main/python/org/kurator/validation/actors/dwca/text_file_splitter.py:104-110 | The response keys are exactly the names in `returnvars`. Each name maps to the value at its last position (later assignments replace earlier ones). Requires `returnvals` to be at least as long as `returnvars`, since a shorter list would raise. |
| Splitter.NatToStringInjective | src/main/python/org/kurator/validation/actors/dwca/text_file_splitter.py:90 | `str` on non-negative integers is injective: equal decimal strings mean equal numbers. |
| Splitter.ChunkPathInjective | src/main/python/org/kurator/validation/actors/dwca/text_file_splitter.py:90 | Chunk paths built from the same workspace, pattern and extension are equal only if their indices are equal. |
| Splitter.NumChunksIsCeiling | src/main/python/org/kurator/validation/actors/dwca/text_file_splitter.py:85-93 | The chunk count is the ceiling of `n / chunksize`. It is 0 exactly when there are no data rows. The chunks hold all `n` rows, and the last chunk is not empty. When `n` is a multiple of `chunksize`, the count is exactly `n / chunksize`, so there is no trailing empty chunk. |
| Splitter.NumChunksSucc | src/main/python/org/kurator/validation/actors/dwca/text_file_splitter.py:85-96 | One more row adds a chunk exactly when the rows already written are a multiple of `chunksize`. This is the test made before the increment. |
| Splitter.ChunkFilesOpen | src/main/python/org/kurator/validation/actors/dwca/text_file_splitter.py:85-93 | When the rows so far are a multiple of `chunksize`, the next row opens a new chunk file. That file is named with index `rows / chunksize` and holds exactly the header and that row. The earlier files are unchanged. |
| Splitter.ChunkFilesExtend | src/main/python/org/kurator/validation/actors/dwca/text_file_splitter.py:95-96 | Otherwise the next row is appended to the last chunk file, and nothing else changes. |
| Splitter.ChunksStartWithHeader | src/main/python/org/kurator/validation/actors/dwca/text_file_splitter.py:75-92 | The first line of every chunk file is exactly the source header line. |
| Splitter.ChunkPathsDistinct | src/main/python/org/kurator/validation/actors/dwca/text_file_splitter.py:90-93 | Chunk file `i` is named `workspace/filepattern-i.fileext`, and no two chunk files share a path. |
| Splitter.ChunkSizes | src/main/python/org/kurator/validation/actors/dwca/text_file_splitter.py:85-96 | Every chunk holds between 1 and `chunksize` data rows. Every chunk except the last holds exactly `chunksize`. |
| Splitter.ChunksReassemble | src/main/python/org/kurator/validation/actors/dwca/text_file_splitter.py:83-96 | The data rows of the chunk files, concatenated in index order, are exactly the input's data rows, in order. |
| Splitter.SplitIntoChunks | src/main/python/org/kurator/validation/actors/dwca/text_file_splitter.py:78-100 | The loop writes exactly `ChunkFiles` of the data rows. `rowcount` is the number of data rows. `chunks` is the number of files written, which is `NumChunks`. |
| Splitter.SplitterResponse | src/main/python/org/kurator/validation/actors/dwca/text_file_splitter.py:104-110 | The response has exactly the five keys: pattern, extension, chunk count, row count, and `success` set to true. |
| Splitter.TextFileSplitter | src/main/python/org/kurator/validation/actors/dwca/text_file_splitter.py:40-111 | There is no response exactly when the input path is not a file. Otherwise the header is the first line and the chunk files are `ChunkFiles` of the remaining lines. The workspace and chunk size fall back to `./workspace` and 10000 when absent. The response reports `chunks` (the number of files written, which is the ceiling count), `splitrowcount` (the number of lines after the header) and `success` as true. A header-only file produces no chunk files and `chunks` 0. |
| GeogCollector.NotInList | src/main/python/org/kurator/validation/actors/dwca/dwc_geog_collector.py:82 | A value is added exactly when it is a candidate and not an existing value. So the added values are disjoint from the existing ones, and together they cover the candidates. |
| GeogCollector.NotInListNoDuplicates | src/main/python/org/kurator/validation/actors/dwca/dwc_geog_collector.py:82 | Distinct candidates give distinct added values. |
| GeogCollector.NotInListAllExisting | src/main/python/org/kurator/validation/actors/dwca/dwc_geog_collector.py:80-82 | When every candidate is already an existing value, nothing is added. |
| GeogCollector.MissingVocabularyAddsAll | src/main/python/org/kurator/validation/actors/dwca/dwc_geog_collector.py:78-89 | With no existing values (the file is missing when they are computed), the added values are all the candidates, in order. |
| GeogCollector.VocabFile.WriteHeader | src/main/python/org/kurator/validation/actors/dwca/dwc_geog_collector.py:88-89 | Creating the vocabulary file leaves it holding only the header. |
| GeogCollector.VocabFile.AppendRow | src/main/python/org/kurator/validation/actors/dwca/dwc_geog_collector.py:96-99 | One `writerow` appends one row after the existing ones. The header and the earlier rows are unchanged. |
| GeogCollector.NewRowsValues | src/main/python/org/kurator/validation/actors/dwca/dwc_geog_collector.py:96-99 | The key column of the appended rows holds exactly the added values. |
| GeogCollector.CollectorResponse | src/main/python/org/kurator/validation/actors/dwca/dwc_geog_collector.py:107-112 | The response always has exactly `addedvalues`, `success` and `comment`. |
| GeogCollector.DwcGeogCollector | src/main/python/org/kurator/validation/actors/dwca/dwc_geog_collector.py:52-116 | The new contents are `AfterRun` of the contents on entry. There, the existing values come from the file as it was on entry. A missing file is first created with the standard header. If the header is the standard one, one row `{geogkey: value, standard: '', checked: 0}` is appended per added value, in order, and `success` is true with no comment. Otherwise the file is unchanged, `success` is false and `comment` is the mismatch message. Either way `addedvalues` is reported. The writes are append-only: an existing file keeps its header, and its old rows are a prefix of its new rows. |
| GeogCollector.RerunAddsNothing | src/main/python/org/kurator/validation/actors/dwca/dwc_geog_collector.py:78-99 | After a successful run, every candidate is an existing value. A second run with the same candidates adds nothing and leaves the vocabulary as it was. |
| GeogCollector.AppendKeepsKeysUnique | src/main/python/org/kurator/validation/actors/dwca/dwc_geog_collector.py:78-99 | Suppose the vocabulary rows have distinct key values and the candidates are distinct. Then the rows still have distinct key values after the append, so no value already in the vocabulary is appended again. |
| GeogCollector.RunTwice | src/main/python/org/kurator/validation/actors/dwca/dwc_geog_collector.py:52-116 | Run the collector twice on the same vocabulary file and candidates. If the first run succeeds, the second reports no added values, succeeds, and leaves the file as the first run left it. |

## Left out

- The taxonomic name lookup client (`demos/WoRMSClient.py`) is not part of this model. It is a thin wrapper around calls to a remote SOAP web service.
- Command-line parsing, printing and the `main` functions of both scripts are not modelled. This includes the splitter's `main`, which replaces the module-level defaults, with a chunk size fallback of 1000.
- JSON decoding of the inputs and encoding of the response are not modelled. Inputs are plain parameters, and the response is the dictionary before encoding.
- Real file-system effects are not modelled: opening and closing handles, universal-newline mode, and the CSV dialect and quoting. Files are sequences of lines, and vocabulary rows are dictionaries. The `checked` value 0 appears as the text `"0"`, as the CSV writer writes it.
- `split_path` is a function parameter of the splitter, because its body is not part of this model.
- The composite key column name (`compose_key_from_list(geogkeytermlist)`) is a parameter of the collector.
- The candidate values (`distinct_composite_term_values_from_file`) are a parameter of the collector.
- `distinct_term_values_from_file` is modelled as the set of key-column values of the vocabulary rows, and as empty for a missing file.
- `not_in_list` is modelled as an order-preserving filter. Its body is not part of this model, so the order of the added values, and hence of the appended rows, is an assumption.
- `geogvocabheader()` is modelled as `[geogkey, "standard", "checked"]`.
- `read_header` is modelled as returning the header exactly as stored.
- An input file with no lines at all makes the splitter's `input.next()` raise. The model requires a non-empty input file instead.
- Splitter.TextFileSplitter: requires a positive chunk size, although the source accepts some other values. Splitter.SplitIntoChunks and Splitter.EffectiveChunkSize carry the same requirement.
  - A chunk size of 0 fails only at the first data row, where the `%` at text_file_splitter.py:85 divides by zero. A header-only file with chunk size 0 completes with `chunks` 0 and `splitrowcount` 0.
  - A negative chunk size `-c` is accepted: Python's floor modulo makes `rowcount % -c == 0` exactly when `rowcount % c == 0`, so the file splits into chunks of `c` rows.
  - The model excludes both cases, and with them a non-integer chunk size.
- Inputs missing the required `inputpath`, `inputfile` or `vocabfile` keys raise a `KeyError`. The model takes these as required parameters.
- GeogCollector.NewRowsValues: requires the key column name to differ from `standard` and `checked`. With either name, the later entry of the row's dictionary literal would replace the value. The same requirement is on RerunAddsNothing, AppendKeepsKeysUnique and RunTwice.
