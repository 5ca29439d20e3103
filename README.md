# Subtitle and background-removal service: the self-contained logic, in Dafny

The service is a small FastAPI application (`main.py`) with four endpoints. Most of it
forwards work to other programs: MoviePy and FFmpeg extract audio, a remote speech model
transcribes it, a remote chat model detects languages and translates text, and OpenCV and
PIL decode, segment and encode images. Three pieces are plain logic of the service's own.
This project models those three and proves what they do.

- **SRT translation** (`/translate-srt/`). The subtitle file is stripped and cut into
  blocks at every `"\n\n"`. A block is skipped when it is blank or has fewer than three
  lines once stripped. Every other block (a *cue*) keeps its first line (the cue number)
  and second line (the timecode). Its remaining lines are joined by single spaces and
  handed to the translator. The stripped translation becomes the third line of the
  rebuilt block. Rebuilt blocks are joined with `"\n\n"`.
  Module `SrtTranslation`, file `srt_translation.dfy`.
  The loop is the method `TranslateBlocks`. It is proved to return `Rebuilt` and
  `Requests` of `Filter(IsCue, blocks)`. Its body is the method `RebuildBlock`, proved
  against `IsCue`, `RebuildCue` and `CueText`.
  The translator is a function parameter `translate: string -> string`. It stands for the
  chat request, which already knows the target language.
- **Language-detection sample** (`/detect-language/`). The content is stripped and split
  into lines. Empty lines, lines containing `"-->"` and all-digit lines are dropped. The
  rest are joined by spaces and cut to 500 characters.
  Module `LanguageSample`, file `language_sample.dfy`.
- **GrabCut label grid to alpha channel** (`/remove-background/`). Labels 0 and 2
  (definite and probable background) become 0, every other value becomes 1. That mask
  times 255, in `uint8` arithmetic, is written into channel 3 of the H×W×4 RGBA array.
  Module `BackgroundAlpha`, file `background_alpha.dfy`.
  The array is a Dafny `array3`. It is updated in place by the method `WriteAlpha`, and
  the colour channels are proved untouched.

Two shared modules support them:
- `PyStrings` (`strings.dfy`) gives the Python `str` operations used: `strip()`,
  `split(sep)` (leftmost, non-overlapping, at least one piece), `sep.join(...)`,
  `isdigit()`, `in` and `[:n]`. It proves that join undoes split, that every cut is at
  the leftmost remaining occurrence of the separator, and that no piece contains the
  separator. It also gives an
  independent description of stripping and proves that `Strip` is the only string that
  meets it.
- `Filtering` (`filtering.dfy`) gives one filter. It serves both the list comprehension
  of the language sample and the `continue`-guarded loop of the translation. It proves
  which elements the filter keeps, that it keeps them in order, and where each one came
  from.

## Model

| member | source | states |
|---|---|---|
| `PyStrings.TrimStart` | main.py:161 | the result is a suffix of the input, everything cut off is whitespace, and the result does not start with whitespace |
| `PyStrings.TrimEnd` | main.py:161 | the result is a prefix of the input, everything cut off is whitespace, and the result does not end with whitespace |
| `PyStrings.Strip` | main.py:168 | the stripped string is no longer than the input and neither starts nor ends with whitespace |
| `PyStrings.StripIsStripped` | main.py:165 | `Strip(s)` is a slice `s[i..j]` with only whitespace outside it and no whitespace at its two ends |
| `PyStrings.StrippedIsUnique` | main.py:165 | at most one string fits that description, so the description defines what stripping means |
| `PyStrings.Contains` | main.py:135 | the left-to-right scan for `sub` succeeds exactly when `sub` occurs at some position of `s` |
| `PyStrings.Join` | main.py:176 | the joined string begins with the first part |
| `PyStrings.Split` | main.py:161 | splitting always yields at least one piece (Python's `"".split(sep) == [""]`) |
| `PyStrings.SplitLeftmost` | main.py:161 | no occurrence of the separator starts inside a piece, in the rest of the string from that piece on: every cut is at the leftmost remaining occurrence |
| `PyStrings.SplitPiecesAvoidSep` | main.py:161 | no piece of a split contains the separator |
| `PyStrings.SplitCount` | main.py:168 | splitting on a character gives one piece more than the number of occurrences of that character |
| `PyStrings.JoinSplit` | main.py:168 | joining the pieces of a split with the separator gives back the original string |
| `PyStrings.SplitAvoidsChar` | main.py:134 | no piece of a split on a character contains that character |
| `PyStrings.SplitAround` | main.py:168 | splitting `a + c + b` on character `c` gives the pieces of `a` followed by the pieces of `b` |
| `PyStrings.SplitWithoutChar` | main.py:168 | a string that lacks the separator character splits into itself alone |
| `PyStrings.JoinAvoidsChar` | main.py:176 | a character that is in no part and not in the separator is not in the join |
| `PyStrings.Truncate` | main.py:135 | `s[:n]` has length `min(|s|, n)` and is a prefix of `s` |
| `Filtering.Filter` | main.py:164-170 | the survivors are no more than the input, every survivor passes the test and comes from the input |
| `Filtering.FilterSnoc` | main.py:164-192 | one more input element adds itself to the output exactly when it passes |
| `Filtering.FilterConcat` | main.py:135 | filtering `a + b` gives the survivors of `a` followed by those of `b`, so relative order is kept |
| `Filtering.FilterMembership` | main.py:135 | a value survives exactly when it occurs in the input and passes the test |
| `Filtering.FilterPositions` | main.py:164-170 | the k-th survivor is the input element at the k-th kept position; positions strictly increase; every passing position is kept |
| `Filtering.FilterKeepsAll` | main.py:164-170 | the output equals the input, or equivalently is as long as it, exactly when every element passes |
| `SrtTranslation.Blocks` | main.py:161 | the blocks joined with `"\n\n"` are the stripped file, and no block contains `"\n\n"` |
| `SrtTranslation.BlockLines` | main.py:168 | the lines joined with `"\n"` are the stripped block, and no line contains a newline |
| `SrtTranslation.IsCue` | main.py:165-170 | a block is kept exactly when its stripped form holds at least two newlines (a blank block splits into one empty line) |
| `SrtTranslation.CueText` | main.py:176 | the text handed to the translator contains no newline |
| `SrtTranslation.RebuildCue` | main.py:173-191 | re-reading a rebuilt block line by line gives the cue number and timecode unchanged, then the lines of the stripped translation |
| `SrtTranslation.Requests` | main.py:176-186 | one translation request per cue |
| `SrtTranslation.Rebuilt` | main.py:188-192 | one rebuilt block per cue |
| `SrtTranslation.TranslatedSrt` | main.py:194 | the result is empty exactly when the file holds no cue |
| `SrtTranslation.Cues` | main.py:164-170 | every cue kept from the blocks is non-blank and has at least three lines |
| `SrtTranslation.AppendCue` | main.py:191-192 | one more cue adds exactly its rebuilt block and its request |
| `SrtTranslation.NextBlock` | main.py:164-192 | one loop iteration adds the rebuilt block and the request when the block is a cue, and nothing otherwise |
| `SrtTranslation.RebuildBlock` | main.py:165-191 | the loop body keeps the block exactly when it is a cue; it then returns the rebuilt block and the text it sent to the translator |
| `SrtTranslation.TranslateBlocks` | main.py:162-192 | the loop returns the rebuilt cues of the blocks in order, and the translator requests in the order they were made |
| `SrtTranslation.TranslateSrt` | main.py:161-194 | the endpoint's result is the rebuilt cues joined with `"\n\n"`; its requests are the texts of the cues, in file order |
| `SrtTranslation.CueCount` | main.py:164-170 | there is one output block per cue; that is at most the number of blocks, and equal exactly when every block is a cue |
| `SrtTranslation.OutputProvenance` | main.py:164-192 | output block k and request k come from the block at the k-th cue position; cue positions increase; every cue block is among them |
| `SrtTranslation.HeaderLines` | main.py:191 | two newline-free header lines stay the first two lines of `number\ntimecode\ntext` |
| `LanguageSample.Lines` | main.py:134 | the lines of the stripped content contain no newline |
| `LanguageSample.IsTextLine` | main.py:135 | a line is kept exactly when it is non-empty, `-->` starts at none of its positions, and some character is not a digit |
| `LanguageSample.TextLines` | main.py:135 | every kept line is non-empty, contains no `-->`, is not all digits, and has no newline |
| `LanguageSample.SampleText` | main.py:135 | the sample is at most 500 characters. It is exactly the first `min(500, |all|)` characters of the space-joined kept lines, and it contains no newline |
| `LanguageSample.TextLinesExactly` | main.py:134-135 | a line is kept exactly when it is in the content and passes all three tests. Kept lines are in file order, each traced to its position |
| `LanguageSample.TimecodeLineDropped` | main.py:135 | no line of the form `start-->end` is ever kept |
| `BackgroundAlpha.DecodeLabel` | main.py:105-106 | mask values 0..3 decode to a GrabCut label whose code is that value; values from 4 up decode to none |
| `BackgroundAlpha.DecodeCode` | main.py:105 | each label's code decodes back to that label |
| `BackgroundAlpha.ForegroundBit` | main.py:106 | a cell maps to 0 or 1, and to 1 exactly when its label is definite or probable foreground |
| `BackgroundAlpha.ForegroundMask` | main.py:106 | `mask2` has the shape of the label grid; each cell is 0 or 1, and 0 exactly when its label is 0 or 2 |
| `BackgroundAlpha.MulByte` | main.py:110 | the `uint8` product equals the integer product when that fits in a byte, and otherwise differs from it by a multiple of 256 |
| `BackgroundAlpha.AlphaOfLabel` | main.py:110 | `mask2 * 255` in `uint8` arithmetic never wraps: it is 0 for labels 0 and 2 and 255 for all others |
| `BackgroundAlpha.WriteAlpha` | main.py:110 | channel 3 of every pixel becomes `mask2 * 255` modulo 256, and channels 0-2 keep their old values |
| `BackgroundAlpha.ApplyGrabCutMask` | main.py:106-110 | after the step every alpha is 0 or 255. It is 255 exactly where the label is neither 0 nor 2, which for a GrabCut label means a foreground label. Channels 0-2 are unchanged |

## Left out

- Video upload, temporary files and their deletion, and MoviePy/FFmpeg audio extraction (main.py:37-78) are file I/O and external tools.
- The speech-to-text request (main.py:60-64) is a remote call.
- The chat requests (main.py:137-144, 179-186) are remote calls. The translator is the parameter `translate`. The detected language, and its `.strip().lower()`, are not modelled.
- The translator is a fixed function, so the model assumes the same text is always translated the same way. The remote call (main.py:179-186) samples at temperature 0.7 and does not guarantee that; the model's results hold for whatever answers the calls happened to give, read as that function.
- Failures are not modelled. Any exception in the endpoints (a failed request, a `None` message content) turns into an error dictionary, and that path is framework plumbing.
- Image decoding, the GrabCut segmentation, the BGR-to-RGBA conversion and the PNG encoding (main.py:89, 103, 109, 113-118) are OpenCV and PIL calls. Their internals are not in the repository. The mixture models, graph construction and min-cut behind the single `cv2.grabCut` call are therefore not part of this model.
- The initial rectangle `int(w*0.05)` etc. (main.py:100) is not modelled. It is floating-point arithmetic truncated to an integer.
- FastAPI and CORS wiring, logging with `print`, and the server start-up (main.py:17-27, 198-207) are framework plumbing.
- PyStrings.IsAsciiDigits: Python's `str.isdigit()` also accepts non-ASCII digits (superscripts, other scripts); only `'0'..'9'` are modelled.
- PyStrings.IsSpace: the whitespace set is the fixed list of code points for which Python's `str.isspace()` holds. It is taken from the Unicode tables of current Python versions and may differ from older versions.
- Strings are sequences of code points; no encoding or normalisation is modelled.
