# FastFEC event bridge, modelled in Dafny

FastFEC is a C engine that parses FEC campaign-finance filings. It reports
its output through callbacks. This project models the code on both sides
of that callback boundary:

- the Python side, `python/src/fastfec/utils.py`:
  - `parse_date`, `array_get`, `convert_item` and `line_result` turn one
    engine line into an insertion-ordered record (modules `FieldValues`,
    `Decimal`, `LineFormat`, `OrderedDicts`);
  - `LineCache` and the body of `line_callback` decide which line is a
    form type's header line and which lines become records (module
    `LineCallbacks`);
  - `WriterCache`, `write_callback` and `close` route raw output bytes to
    one writer per `filename + extension` key (module `PyWriterCache`);
- the C side, `src/writer.c`: the write context (module `WriteContexts`).
  It covers:
  - the table of open files with its "last used" fast path;
  - the path each file is opened at, and the exact `malloc` size for it;
  - the file and local-buffer modes of `writeN`, `write` and `writeChar`;
  - the close-everything bookkeeping of `freeWriteContext`.

Python dicts are modelled as sequences of entries with distinct keys, in
insertion order (`OrderedDicts`). Assigning to an existing key keeps its
position. Python's `int()` is modelled on text (`Decimal.ParseInt`). It
strips the ASCII whitespace `" \t\n\v\f\r"` and the non-ASCII characters
Python counts as spaces, accepts one sign, and accepts single
underscores between digits. `datetime.date` validity is modelled as
years 1 to 9999, with Gregorian leap years. Two things are parameters of
the model rather than definitions:

- `float(item)`, a function `string -> Option<real>`;
- `parse_csv_line`, a function `string -> seq<string>`.

Notes on the source:

- Filing-id offset. Field 0, the filing id, is not forced to be a
  string. With the filing id included, the code looks up
  `array_get(types, i - 1, ...)`, which for field 0 is `types[-1]`, the
  last type code (utils.py:172). Only an empty type string makes it fall
  back to `s`. `LineFormat.FilingIdFieldUsesLastCode` states this, and
  `LineFormat.FilingIdCanBecomeFloat` shows the filing id becoming a
  number.
- Synthesized key names. Keys for fields past the headers are spelled
  `__missing_header_<k>`, with two leading underscores, numbered from 1
  (utils.py:194-200).
- Empty header list. `line_callback` tests the cached header list for
  truth (utils.py:262), so an empty list counts as missing. The fast path
  (utils.py:244) does not make this test.
  `LineCallbacks.EmptyHeaderLine` shows the two paths disagreeing.

## Model

| member | source | states |
|---|---|---|
| OrderedDicts.Get | python/src/fastfec/utils.py:202 | a dict lookup finds a value exactly when the key is among the dict's keys, and the value found is the one stored with that key |
| OrderedDicts.Put | python/src/fastfec/utils.py:202 | `result[header] = item`: an existing key keeps its place, a new key goes last, and the key then maps to the new value |
| OrderedDicts.PutOther | python/src/fastfec/utils.py:202 | an assignment leaves every other key's value unchanged |
| OrderedDicts.PutAllKeys | python/src/fastfec/utils.py:195-202 | after a run of assignments, the keys are the assigned keys deduplicated in order of first assignment |
| OrderedDicts.PutAllGet | python/src/fastfec/utils.py:195-202 | after a run of assignments, each assigned key holds the value of its last assignment, and unassigned keys are unchanged |
| OrderedDicts.PutAllDistinct | python/src/fastfec/utils.py:195-202 | assigning distinct keys builds exactly the zipped key/value list |
| Decimal.NatToString | python/src/fastfec/utils.py:199 | the decimal text of `missing_header` is nonempty, all digits, has no leading zero, and reads back as the number |
| Decimal.ParseInt | python/src/fastfec/utils.py:152-154 | `int()` succeeds exactly when the text, with its surrounding spaces stripped, is an optional sign followed by digits with single underscores between them; a negative result needs a minus sign |
| Decimal.ParseIntFileSeparator | python/src/fastfec/utils.py:152-154 | the control character U+001C is not stripped, so U+001C followed by a digit does not parse |
| Decimal.ParseIntDigits | python/src/fastfec/utils.py:152-154 | `int()` of a run of ASCII digits is its decimal value |
| Decimal.ParseIntSpaces | python/src/fastfec/utils.py:152-154 | `int()` ignores surrounding whitespace: `" 7"` reads as 7 |
| Decimal.ParseIntSign | python/src/fastfec/utils.py:152-154 | `int()` accepts a sign: `"-7"` reads as -7 |
| Decimal.ParseIntUnderscores | python/src/fastfec/utils.py:152-154 | `int()` accepts `"1_0"` as 10 but rejects a leading underscore |
| FieldValues.ParseDate | python/src/fastfec/utils.py:143-157 | `None` stays `None`, and any other length than 10 is returned unchanged; otherwise the result is a date exactly when the three slices parse and form a valid calendar date, and otherwise the unchanged string |
| FieldValues.ParseDateIgnoresSeparators | python/src/fastfec/utils.py:151-154 | positions 4 and 7 are never read: strings that agree on the three slices get the same outcome |
| FieldValues.ParseFormatDate | python/src/fastfec/utils.py:151-155 | every valid date written as zero-padded parts, with any separator characters, parses back to itself |
| FieldValues.ParseIsoDate | python/src/fastfec/utils.py:143-157 | `parse_date(d.isoformat()) == d` for every valid date |
| FieldValues.DatePartsOfPadded | python/src/fastfec/utils.py:151-154 | zero-padded year, month and day, whatever sits in the separator positions, read back as the numbers they encode |
| FieldValues.ParseDateLeapDay | python/src/fastfec/utils.py:155 | `"2020-02-29"` parses to that leap day |
| FieldValues.ParseDateImpossibleDay | python/src/fastfec/utils.py:155-157 | `"2020-02-30"` raises inside `datetime.date` and comes back unchanged |
| FieldValues.DateParts | python/src/fastfec/utils.py:151-154 | the three slices yield a year, month and day exactly when each of `int()` of them succeeds, and the numbers are those `int()` returns |
| FieldValues.ParseDateFileSeparator | python/src/fastfec/utils.py:151-157 | `"2020-\x1c2-09"` has a month slice `int()` rejects, so it comes back unchanged |
| FieldValues.ParseDateLenient | python/src/fastfec/utils.py:151-155 | `"2020/ 2/ 9"` is accepted as 9 February 2020, because of `int()`'s leniency |
| LineFormat.ArrayGet | python/src/fastfec/utils.py:133-140 | Python indexing: a non-negative index reads from the front, a negative one from the back, and an out-of-range one gives the fallback |
| LineFormat.Coerce | python/src/fastfec/utils.py:173-186 | a number exactly for code `f` when `float` succeeds; a date only for code `d` with date parsing on, and then whatever `parse_date` gives; the raw string in every other case, unknown codes included |
| LineFormat.ConvertItem | python/src/fastfec/utils.py:165-186 | `None` exactly past the fields; the raw field when there are no type codes; a number or date only under the code at the offset position, and under that code a number whenever `float` succeeds and `parse_date`'s result whenever dates are parsed |
| LineFormat.FilingIdFieldUsesLastCode | python/src/fastfec/utils.py:171-172 | with the filing id included, field 0 is coerced by the last type code |
| LineFormat.TypeCodeOffset | python/src/fastfec/utils.py:165-172 | field `i` uses code `i - 1` with the filing id included and code `i` without it; a field whose code index falls outside the codes in either direction (past the end, or `-1` on an empty type string) stays a string |
| LineFormat.FilingIdCanBecomeFloat | python/src/fastfec/utils.py:171-181 | a numeric filing id followed by a float code as the last code becomes a number |
| LineFormat.AssignedKeys | python/src/fastfec/utils.py:194-200 | the loop runs `max(len(headers), len(items))` times; its keys start with the headers themselves, and each later position `i` gets `__missing_header_k` with `k = i - len(headers) + 1` |
| LineFormat.Fill | python/src/fastfec/utils.py:194-202 | the loop never loses a key: the dict it returns has the keys of the dict it started from as a prefix of its keys |
| LineFormat.FillIsPutAll | python/src/fastfec/utils.py:194-202 | the loop with its `missing_header` counter, starting at 1 and bumped once per position past the headers, performs exactly the assignments of the assigned keys and values, in order |
| LineFormat.LineResult | python/src/fastfec/utils.py:188-204 | the record is a well-formed dict whose keys are the assigned keys in order of first assignment |
| LineFormat.LineResultValues | python/src/fastfec/utils.py:195-202 | each key holds the conversion of the last position that assigned it, and no other key is present |
| LineFormat.MissingHeaderInjective | python/src/fastfec/utils.py:199 | different counters give different synthesized names |
| LineFormat.LineResultDistinct | python/src/fastfec/utils.py:188-204 | with distinct headers that do not look like synthesized names, the record has one entry per position: key `i` with the conversion of field `i` |
| LineFormat.LineResultExamplePlain | python/src/fastfec/utils.py:188-204 | headers `h1, h2` and fields `A, B` give `{h1: A, h2: B}` |
| LineFormat.LineResultExampleMissing | python/src/fastfec/utils.py:194-204 | header `h1` and fields `A, B, C` give `{h1: A, __missing_header_1: B, __missing_header_2: C}` |
| LineFormat.LineResultExampleRepeated | python/src/fastfec/utils.py:195-202 | a repeated header keeps one key at its first position, holding the last value |
| LineCallbacks.LineCallback | python/src/fastfec/utils.py:238-284 | the cache stays consistent and records the form type as last. A line is stored as headers, with nothing emitted, exactly when it misses the fast path and no non-empty headers are stored. Otherwise one record is emitted from the stored headers and the map is unchanged. Captured headers never change |
| LineCallbacks.Run | python/src/fastfec/utils.py:236-284 | over a stream of lines the cache stays consistent and at most one record is emitted per line |
| LineCallbacks.UnseenFormType | python/src/fastfec/utils.py:258-270 | a form type no line has carried is neither cached nor last |
| LineCallbacks.FirstLineIsHeader | python/src/fastfec/utils.py:258-268 | the first line of each form type is stored as its headers and not emitted |
| LineCallbacks.CapturedHeadersStable | python/src/fastfec/utils.py:258-270 | once a form type has non-empty headers, no later line changes them |
| LineCallbacks.ConsecutiveSameFormType | python/src/fastfec/utils.py:244-257 | a line right after a line of the same form type takes the fast path and leaves the cache alone |
| LineCallbacks.EmptyHeaderLine | python/src/fastfec/utils.py:244-268 | an empty header list is used by the fast path, but is recaptured after another form type |
| PyWriterCache.GetWriter | python/src/fastfec/utils.py:104-108 | the open function is called exactly when the key is new, with the concatenated key, and the writer is appended; a known key changes nothing |
| PyWriterCache.Prefix | python/src/fastfec/utils.py:223 | the slice `contents[:num_bytes]` is always a prefix of the buffer, of length `num_bytes` clamped to between 0 and the buffer's length |
| PyWriterCache.WriteCallback | python/src/fastfec/utils.py:221-223 | the payload is appended to the writer for the key, and no other writer changes |
| PyWriterCache.Close | python/src/fastfec/utils.py:110-112 | every opened writer is closed once, and only those |
| PyWriterCache.OpenedOncePerKey | python/src/fastfec/utils.py:104-108 | over a session, writers are opened once per distinct key, in the order of first use |
| PyWriterCache.WrittenInCallOrder | python/src/fastfec/utils.py:221-223 | each writer holds exactly the payloads sent to its key, in call order |
| PyWriterCache.CloseAfterRun | python/src/fastfec/utils.py:110-112 | teardown closes each writer the session opened once, in opening order |
| PyWriterCache.KeyCollision | python/src/fastfec/utils.py:105 | different filename/extension pairs with the same concatenation share one writer |
| WriteContexts.NewWriteContext | src/writer.c:53-66 | a new context has no files and no last name, is in file mode, and satisfies the table invariant |
| WriteContexts.InitializeLocalWriteContext | src/writer.c:68-75 | local mode starts at position 0 on the caller's buffer, with the text emptied and the file table kept |
| WriteContexts.IndexOf | src/writer.c:94-104 | the search finds a position exactly when the name is in the table, and that position holds the name |
| WriteContexts.GetFile | src/writer.c:77-131 | the last name unchanged means no change; a known name moves the fast path to its entry; a new name is appended, opened at its full path, and becomes last. The table stays duplicate-free |
| WriteContexts.FastPathAgreesWithSearch | src/writer.c:79-104 | the handle kept for the last name is the one the search would find |
| WriteContexts.FullPathInjective | src/writer.c:111-125 | distinct table names are opened at distinct paths |
| WriteContexts.AllocSizeFits | src/writer.c:113 | the `malloc` size is the path length plus one, for the terminator |
| WriteContexts.StrCat | src/writer.c:114-123 | `strcat` scans to the terminator, copies the source after it and terminates: the text becomes the old text followed by the source |
| WriteContexts.AssemblePath | src/writer.c:113-123 | the `strcpy`/`strcat` sequence fills the allocation exactly with the full path and its terminator |
| WriteContexts.LocalWriteN | src/writer.c:143-153 | the text grows by exactly the `nchars` bytes, earlier bytes are untouched, the terminator moves to the new position, and the capacity never shrinks |
| WriteContexts.MemCopy | src/writer.c:149 | `memcpy` changes exactly the `nchars` bytes at the position |
| WriteContexts.WriteNLocal | src/writer.c:143-153 | the grow, copy and terminate steps compute the local write |
| WriteContexts.AppendToFile | src/writer.c:138-139 | the bytes go to the file for that name and no other |
| WriteContexts.WriteN | src/writer.c:133-154 | file mode appends the first `nchars` bytes to the file for the name and changes no other file; local mode appends them to the buffer text and leaves the file table alone |
| WriteContexts.Strlen | src/writer.c:158 | `strlen` is the position of the first NUL, and no byte before it is NUL |
| WriteContexts.Write | src/writer.c:156-159 | `write` keeps the context well formed and appends the string up to its terminator, to the file for the name or to the local buffer; no NUL enters the output |
| WriteContexts.WriteChar | src/writer.c:161-175 | `writeChar` keeps the context well formed and appends the one byte, to the file for the name or to the local buffer; it has exactly the effect of `writeN` of that byte, in both modes |
| WriteContexts.LocalIgnoresFilename | src/writer.c:141-153 | in local mode the filename plays no part |
| WriteContexts.FileModeOpens | src/writer.c:77-131 | a fresh context opens one file per distinct filename, in the order of first use |
| WriteContexts.FileModeContents | src/writer.c:133-140 | each file receives exactly the bytes addressed to it, in call order |
| WriteContexts.RunLocal | src/writer.c:141-153 | a run of local writes keeps the buffer well formed: the text is NUL-terminated at the position, within capacity |
| WriteContexts.RunLocalText | src/writer.c:143-153 | a run of local writes leaves the old text followed by every call's bytes, in call order |
| WriteContexts.RunCallsLocal | src/writer.c:133-153 | in local mode a run of `writeN` calls touches only the local buffer, exactly as the buffer-only run does |
| WriteContexts.LocalModeSession | src/writer.c:141-153 | in local mode the buffer text becomes the old text followed by every call's bytes in call order, whatever filenames the calls name |
| WriteContexts.LocalModeOpensNothing | src/writer.c:133-153 | in local mode no file is opened or written: the file table is unchanged |
| WriteContexts.FreeWriteContext | src/writer.c:177-183 | every table entry is closed once, in table order, and no path is closed twice |

## Left out

- The queue hand-off in `line_callback` (`queue.put`, `queue.join`) and the consuming thread are left out. The callback returns the pair it would have enqueued.
- The ctypes plumbing is left out: callback types, `provide_read_callback`, `make_read_buffer`, `as_bytes` and `find_fastfec_lib`. These are foreign-function and file-system glue.
- The UTF-8 decoding of form types, lines and paths is left out. Form types and lines are modelled as text, and writer keys as bytes.
- `parse_csv_line` is a parameter, not a definition. It delegates to Python's `csv` module, and csv.h is not part of this model.
- `float(item)` is a parameter, not a definition, because floating-point parsing is out of scope.
- Decimal.ParseInt: handles ASCII digits only. The non-ASCII decimal digits that `int()` also accepts are not modelled.
- The `logger.warning` for an unknown type code is left out. It is output only, and the value returned is the raw item, as modelled.
- PyWriterCache.Prefix: a count larger than the buffer is clamped to the buffer. In the source, the ctypes pointer slice would read past the buffer, and that memory is not modelled.
- PyWriterCache.GetWriter: `open_function` and `writer.write` are assumed never to raise. If `open_function` raises (utils.py:107), the key is not stored, and the next write for that key calls it again; so "opened once per key" (`OpenedOncePerKey`, `KeyCollision`) is promised only for sessions in which every open succeeds.
- The open function's `mode="wb"` argument and the writer objects themselves are left out. A writer is modelled by the bytes written to it.
- `mkdir_p` and src/path.c are left out, because they are file-system side effects. `fopen` failure (a `NULL` handle) is not modelled either.
- `malloc` and `realloc` failures are left out. The pointer arrays `filenames` and `files` become sequences.
- WriteContexts.GrowStringTo: memory.h is not part of this model. Growth is taken as exactly the requested size with zeroed new cells, and contracts rely only on "at least the requested size, old contents kept".
- WriteContexts.FreeWriteContext: only the bookkeeping is modelled. Which paths are closed, once each, is modelled; the `free` calls are not. The context stores the caller's filename pointers without copying them (writer.c:111) and later frees them (writer.c:181). Whether callers hand over ownership is outside this model.
- C `int` overflow of `nchars` and of `localBufferPosition` is not modelled. Integers are unbounded.
