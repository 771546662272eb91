# Chunked offline transcription — a Dafny model

This project models the only piece of sequential logic in the audio
transcription and translation tool: the chunked transcription inside
`transcribe_audio_offline` (app.py). The model has three modules.

- `Chunker` (chunker.dfy). The decoded 16 kHz mono 16-bit PCM buffer
  (`full_audio.frame_data`) is cut into consecutive 30-second windows of
  `chunk_size*2 = 960000` bytes. The source uses the list comprehension
  `[frame_data[i:i+chunk_size*2] for i in range(0, len(frame_data), chunk_size*2)]`.
  The model writes it the same way: `Range` is Python's `range` with a
  positive step, `Slice` is Python's clamping slice, and `Chunks` maps the
  slice over the offsets. The window size is a parameter of every lemma, and
  the source's 960000 is the constant `ChunkBytes`.
- `Text` (text.dfy). This is Python's `str.strip()`, which is applied to the
  accumulator before it is returned. Whitespace is what `str.isspace()`
  accepts.
- `Transcription` (transcription.dfy). This holds the recognition loop as a
  method with a `for` loop and a string accumulator. It also holds the whole
  pipeline from decoded bytes to result, `TranscribeAudioOffline`.
  - The speech service is an oracle `recognise: (nat, Request) -> Outcome`.
    It takes the ordinal of a request and the request itself (chunk bytes,
    16000 Hz, width 2, `"en-US"`). It answers `Ok(text)`, `NoMatch`
    (`UnknownValueError`) or `ReqError` (`RequestError`).
  - The progress bar is the log of percentages passed to
    `update_progress_bar`.
  - The service traffic is the log of requests sent.
  - Both logs are returned next to the result, which is
    `Option<string>` (`None` on a service error).

Notes on the source's behaviour, which the model follows:
- Progress is truncated by `int(...)`, not rounded.
- After the first chunk, progress is 0 when there are more than 100 chunks
  (`ProgressFirstPositive`).
- `strip()` removes leading as well as trailing whitespace.
- Temporary files are not removed on the `RequestError` path or the
  exception path.

## Model

| member | source | states |
|---|---|---|
| `Chunker.Slice` | app.py:92 | `frame_data[lo:hi]` has length `min(hi, L) - lo` when `lo < hi` and `lo < L`, and is empty otherwise; its i-th byte is byte `lo + i` of the buffer |
| `Chunker.Range` | app.py:92 | Python's `range(start, stop, step)` for a positive step; it has no contract of its own, and `Chunker.RangeShape` states its length and elements |
| `Chunker.RangeShape` | app.py:92 | `range(start, stop, step)` has `ceil((stop - start) / step)` elements, and the k-th is `start + k*step` |
| `Chunker.Chunks` | app.py:92 | the list comprehension that cuts the buffer; it has no contract of its own, and `ChunkCount`, `ChunkAt`, `ChunkSlices`, `ChunkLengths` and `ChunksCover` characterise it |
| `Chunker.ChunkCount` | app.py:91-92 | a buffer of L bytes gives exactly `ceil(L / size)` chunks, and it gives none exactly when the buffer is empty |
| `Chunker.ChunkAt` | app.py:92 | chunk k starts inside the buffer at byte `k*size` and is the byte range `[k*size, min((k+1)*size, L))` |
| `Chunker.ChunkSlices` | app.py:92 | chunk k is `data[k*size : k*size+size]` and holds between 1 and `size` bytes |
| `Chunker.ChunkLengths` | app.py:92 | every chunk but the last holds exactly `size` bytes; the last holds `L - (n-1)*size` bytes, which is between 1 and `size` and equals `L mod size`, or `size` when that is 0 |
| `Chunker.FullChunks` | app.py:92 | every chunk but the last holds exactly `size` bytes |
| `Chunker.LastChunk` | app.py:92 | a non-empty buffer has a last chunk of `L - (n-1)*size` bytes, which is between 1 and `size` and equals `L mod size`, or `size` when that is 0 |
| `Chunker.ChunksCover` | app.py:92 | the chunks concatenated in order give back the buffer exactly, with no gap and no overlap |
| `Chunker.ChunkOffsetsAligned` | app.py:91-92 | chunk k starts at offset `k*size`; when `size` is a whole number of 2-byte samples, every offset is a multiple of the sample width |
| `Chunker.ChunksWholeSamples` | app.py:91-92 | when the buffer and the window size are whole numbers of samples, every chunk is a whole number of samples |
| `Chunker.SixtyFiveMillionBytes` | app.py:91-92 | the constants give `chunk_size*2 == 960000`, a whole number of samples; a 65000000-byte buffer gives 68 chunks, and the last one has 680000 bytes |
| `Text.IsSpace` | app.py:119 | the characters `str.isspace()` accepts: U+0009..U+000D, U+001C..U+0020, U+0085, U+00A0, U+1680, U+2000..U+200A, U+2028, U+2029, U+202F, U+205F and U+3000; `Strip` and its lemmas are stated in terms of it |
| `Text.SpanStart` | app.py:119 | the first index at or after i that is not whitespace (or the length); everything skipped is whitespace |
| `Text.SpanEnd` | app.py:119 | the end of a range once its trailing whitespace is cut; everything cut is whitespace, and the char before the end is not |
| `Text.Strip` | app.py:119 | `strip()` neither starts nor ends with whitespace, is an infix of its input with only whitespace cut at either end, and is empty exactly when the input is all whitespace |
| `Text.StripAppendSpace` | app.py:119 | trailing whitespace does not change the result of `strip()`: `strip(s + w) == strip(s)` |
| `Text.StripTrimmed` | app.py:119 | `strip()` leaves a string that has no surrounding whitespace unchanged, and it is idempotent |
| `Transcription.AudioRequest` | app.py:99-101 | the request for a chunk carries the chunk's bytes, 16000 Hz, sample width 2 and language `"en-US"`; `Transcribe` and `TranscribeAudioOffline` state that request j is the one for chunk j |
| `Transcription.FirstError` | app.py:98-107 | the index of the first `RequestError` reply, or the number of replies when there is none; no reply before it is fatal |
| `Transcription.Transcribe` | app.py:94-119 | requests are sent for the chunks in order, up to and including the first `RequestError`, and no further; on that error the result is `None` and exactly k progress values were emitted; otherwise the result is the stripped concatenation of `text + " "` / `"[inaudível] "` fragments, with one progress value per chunk; zero chunks give `""`, no request and no progress update |
| `Transcription.Progress` | app.py:109 | the percentage after chunk i of n, `(i+1)*100/n` on integers; it has no contract of its own, and `ProgressBounds`, `ProgressMonotone`, `ProgressLogShape`, `ProgressFirstPositive` and `ProgressStrict` characterise it |
| `Transcription.ProgressBounds` | app.py:109 | each progress value `int((i+1)/n*100)` is at most 100, and the one after the last chunk is exactly 100 |
| `Transcription.ProgressMonotone` | app.py:109 | a later chunk never reports less progress than an earlier one |
| `Transcription.ProgressLogShape` | app.py:109 | the emitted log has one value per processed chunk, is non-decreasing, stays within 0..100 and ends at 100 when every chunk was processed |
| `Transcription.ProgressFirstPositive` | app.py:109 | the first value is positive if and only if there are at most 100 chunks |
| `Transcription.ProgressStrict` | app.py:109 | with at most 100 chunks, the integer progress strictly increases from chunk to chunk (this does not hold for the float expression; see "Left out") |
| `Transcription.Fragment` | app.py:102-104 | what one non-fatal chunk appends to the accumulator; it has no contract of its own, and `FragmentShape` and `FragmentIsPlaceholder` characterise it |
| `Transcription.FragmentShape` | app.py:102-104 | every fragment ends with one space, and a recognised chunk's fragment is its text followed by that space |
| `Transcription.FragmentIsPlaceholder` | app.py:102-104 | a chunk contributes `"[inaudível] "` if and only if it had no speech, or if the service returned the text `"[inaudível]"` itself |
| `Transcription.PlaceholderPositions` | app.py:102-104 | when no reply is the literal mark, position i holds the placeholder exactly when chunk i had no speech; a recognised chunk holds its own text followed by a space |
| `Transcription.PlaceholderCountAll` | app.py:102-104 | the number of placeholders is the number of chunks with no speech plus the number of replies that are the text `"[inaudível]"` itself |
| `Transcription.PlaceholderCount` | app.py:102-104 | a corollary of `PlaceholderCountAll`: when no reply is the literal mark, there are as many placeholders as chunks with no speech |
| `Transcription.AllRecognisedNoPlaceholder` | app.py:101-102 | when every chunk is recognised and no reply is the literal mark, no placeholder appears |
| `Transcription.AccumulatorIsJoin` | app.py:98-102 | when every chunk is recognised and there is at least one chunk, the accumulator is the texts joined by single spaces, plus one trailing space |
| `Transcription.AllRecognisedTranscript` | app.py:98-119 | when every chunk is recognised, the result is the space-joined texts, stripped |
| `Transcription.CleanTextsTranscript` | app.py:98-119 | when every chunk is recognised as a non-empty text with no surrounding whitespace, the result is exactly the texts joined by single spaces |
| `Transcription.TranscribeAudioOffline` | app.py:91-119 | request j carries `frame_data[j*960000 : j*960000+960000]` (1 to 960000 bytes) at 16000 Hz, width 2, `"en-US"`; at most `ceil(L/960000)` requests are sent; on success they cover the buffer exactly and in order, none failed, and the non-decreasing progress log ends at 100; on failure the failing request is the last one sent, every request before it succeeded, and it got no progress update; the result is `None` exactly when some chunk's reply is a `RequestError`, and otherwise it is the stripped concatenation of the fragments of all chunks; an empty buffer gives `""` with no request and no update |

## Left out

- The Streamlit page is left out: CSS and markup (app.py:11-61), the HTML of the progress bar (app.py:125-155), the status placeholders, the `st.error` messages and `main` (app.py:169-195). They are presentation only. `update_progress_bar` is modelled as appending its percentage to the returned progress log.
- Loading `.env`, checking the API key and the startup stop (app.py:66-74) are left out. This is environment input.
- Writing `temp_audio.mp3`, the ffmpeg decode and resample, and `sr.AudioFile`/`record` (app.py:63-64, 82-89) are left out, as is `os.remove` (app.py:112-113). These are file I/O and foreign calls. The model starts from the decoded bytes. Cleanup is not modelled, and the source does not remove the temporary files on the `RequestError` path or the exception path.
- The internals of `recognize_google` (app.py:101) are left out. The service is an oracle of three outcomes, indexed by request ordinal.
- `translate_text_gemini` (app.py:158-166) is left out. It is one remote call with a fixed prompt.
- `time.sleep(0.1)` (app.py:110) is left out. It is timing only.
- The catch-all `except Exception` (app.py:121-123) is left out. It returns `None` on failures of the foreign calls, which are not modelled.
- Transcription.Progress: the model computes progress as `(i+1)*100 / n` on integers. The source computes `int((i+1)/n*100)` in floating point, which can be one lower (29 of 100 gives 28). Being in 0..100, being non-decreasing and reaching 100 at the last chunk also hold for the float version. The strict increase stated in `ProgressStrict` and the exact values are stated for the integer version only.
- Transcription.ProgressStrict: holds for the integer model only. It is false for the source's floating-point expression: with n = 100, chunk index 27 gives `int(28/100*100) = int(28.000000000000004) = 28` and chunk index 28 gives `int(29/100*100) = int(28.999999999999996) = 28`.
