# YouTube MP3 downloader: the decisions in Dafny

The downloader is a thin command-line wrapper around `yt_dlp`. It reads a
URL, checks it superficially, asks the library for the video's metadata,
prints a sanitized title and a `M:SS` duration, and lets the library
download the audio and transcode it to MP3. Everything that touches the
network, the file system or the transcoder belongs to the library or the
operating system. This project models the three pure decisions the
program makes itself, and proves what they guarantee:

- **`sanitize_filename`** (module `Sanitizer`). The title goes through four
  stages in this order. First the nine characters `< > : " / \ | ? *` are
  deleted. Then every line feed, carriage return and tab becomes a space.
  Then the first 200 code points are kept. Finally whitespace is stripped
  from both ends.
- **The duration line** (module `Duration`). It prints
  `duration // 60`, a colon, and `duration % 60` as two digits. The
  duration is 0 when the metadata has none.
- **The URL gate in `main`** (module `Cli`). An empty URL stops the program
  with "No URL provided!". A URL that does not contain `youtube.com` or
  `youtu.be` stops it with "Please provide a valid YouTube URL". Any other
  URL goes on to the download. The module also models where the URL comes
  from: the first command-line argument as given, or else the prompt line
  with its edge whitespace stripped. It also models the optional
  output-directory answer.

The Python built-ins these rely on are modelled in module `PyStr`:

- `str.isspace` on one code point.
- `str.strip()` with no argument.
- the substring test `sub in s`.
- `str()` of an `int`.

Strings are Dafny's `string`. Its `char` is a Unicode scalar value, so
lengths count code points as Python's `len` does. `IsSpace` is the full
character set of Python's `str.isspace`:

- U+0009 to U+000D
- U+001C to U+001F
- U+0020, U+0085, U+00A0, U+1680
- U+2000 to U+200A
- U+2028, U+2029, U+202F, U+205F, U+3000

Durations are unbounded `int`s, as in Python. `//` and `%` by the positive
divisor 60 floor in Python. Dafny's Euclidean `/` and `%` give the same
results there, negative durations included.

Every stage of the sanitizer is paired with something independent of its
body:

- `Strip` is paired with `StripWindow`, a definition of which cut is
  right. `StripWindowUnique` proves that cut is unique.
- Stage 1 is paired with `Filters`, a description by positions.
- The whole transform is paired with `IsSanitized`, which describes its
  fixed points, and with `DrawnFrom`, which says the result comes from the
  title in order.
- The substring scan `Contains` is paired with `Occurs`, an
  existential definition.
- The duration text is paired with a reader, `ReadDuration`. The reader
  turns it back into the duration and accepts no other spelling of it.

Two consequences of the code are worth spelling out:

- A deleted character leaves nothing in its place. The title
  `"My: Video/Title"` sanitizes to `"My VideoTitle"`: the colon goes and
  the space after it stays, while the slash goes and the words on either
  side of it run together. `Sanitizer.SanitizeExample` proves this.
- Line breaks and tabs are not merged. Each one becomes its own space, so
  `"\r\n"` leaves two spaces. `Sanitizer.BreaksNotCollapsed` proves this.

The sanitized title is only shown in the download report. The downloaded
file is named by `yt_dlp`'s output template (line 42), not by
`sanitize_filename`.

## Model

| member | source | states |
|---|---|---|
| `PyStr.Strip` | yt-downloader.py:20 | the result is `s[i..j]` for a cut that removes only whitespace and leaves none at either end |
| `PyStr.StripWindowUnique` | yt-downloader.py:20 | any cut that removes only edge whitespace and leaves none is the one `strip()` makes, so the cut is unique |
| `PyStr.StripTrimmed` | yt-downloader.py:20 | a string without edge whitespace is unchanged by `strip()` |
| `PyStr.StripEmptyIff` | yt-downloader.py:105-106 | `strip()` yields "" exactly when every character is whitespace |
| `PyStr.Contains` | yt-downloader.py:100 | the suffix scan for `sub in s` succeeds exactly when `sub` occurs at some position of `s` |
| `PyStr.NatDigits` | yt-downloader.py:64 | `str(n)` for `n >= 0` is a non-empty run of decimal digits with no leading zero; `str(0)` is exactly "0" |
| `PyStr.IntToStr` | yt-downloader.py:64 | `str(n)` for `n >= 0` is digits with no leading zero except `"0"` itself; for `n < 0` it is a minus sign followed by digits that do not start with 0 |
| `PyStr.IntToStrRoundTrip` | yt-downloader.py:64 | reading `str(n)` back gives `n` for every integer, negative ones included |
| `PyStr.NumeralRoundTrip` | yt-downloader.py:64 | a digit run without a superfluous leading zero is `str` of its own value |
| `PyStr.ReadIntExact` | yt-downloader.py:64 | the reader accepts only the text `str(n)` writes, so `str` and the reader are inverse bijections between integers and their canonical texts |
| `Sanitizer.RemoveForbidden` | yt-downloader.py:15 | the first substitution leaves no forbidden character and never lengthens the string |
| `Sanitizer.RemoveForbiddenFilters` | yt-downloader.py:15 | the first substitution keeps, in order, exactly the characters at the positions that do not hold a forbidden character |
| `Sanitizer.RemoveForbiddenAppend` | yt-downloader.py:15 | the first substitution works character by character: it distributes over concatenation |
| `Sanitizer.ReplaceBreaks` | yt-downloader.py:16 | the second substitution keeps the length, turns each line feed, carriage return and tab into a space and leaves every other character in place |
| `Sanitizer.Truncate` | yt-downloader.py:18-19 | the cut keeps a prefix: the first 200 characters of a longer string, and a string of at most 200 characters whole |
| `Sanitizer.Prepared` | yt-downloader.py:15-19 | after the deletion, the blanking and the cut, no forbidden character, line feed, carriage return or tab is left; the text is the prefix of the deleted-and-blanked title of length min(200, its length) |
| `Sanitizer.Sanitize` | yt-downloader.py:12-20 | for every title the result holds none of `< > : " / \ | ? *`, no line feed, carriage return or tab, at most 200 characters, and no whitespace at either end |
| `Sanitizer.SanitizeIsWindow` | yt-downloader.py:18-20 | the result is the slice of the deleted-and-blanked title that `strip()` cuts out of its first 200 characters: only whitespace lies before and after it within that prefix, and none at its ends |
| `Sanitizer.SanitizeFixedPoint` | yt-downloader.py:15-20 | the sanitizer returns a string unchanged exactly when it already satisfies all four guarantees |
| `Sanitizer.SanitizeIdempotent` | yt-downloader.py:15-20 | sanitizing a sanitized name returns it unchanged |
| `Sanitizer.SanitizeDrawsInOrder` | yt-downloader.py:15-20 | every character of the result comes from a distinct, increasing position of the title, is not forbidden there, and is that character or a space standing for a line break or tab; inside the stretch used only forbidden characters are missing |
| `Sanitizer.SanitizeExample` | yt-downloader.py:15 | `"My: Video/Title"` sanitizes to `"My VideoTitle"` |
| `Sanitizer.BreaksNotCollapsed` | yt-downloader.py:16 | `"a\r\nb"` sanitizes to `"a  b"`: each break becomes its own space |
| `Sanitizer.DisplayTitle` | yt-downloader.py:60 | the printed title always satisfies the sanitizer's guarantees; it is the sanitized title when there is one, and "Unknown" when the metadata has none |
| `Duration.MinutesSeconds` | yt-downloader.py:64 | minutes times 60 plus seconds is the duration, and the seconds lie in [0, 60) |
| `Duration.MinutesSecondsUnique` | yt-downloader.py:64 | the split is the only pair with that identity and seconds in [0, 60) |
| `Duration.TwoDigits` | yt-downloader.py:64 | `:02d` on seconds gives exactly two decimal digits whose value is the seconds |
| `Duration.FormatDuration` | yt-downloader.py:64 | the text is `str(duration // 60)`, a colon, and exactly two digits whose value is below 60 |
| `Duration.FormatDurationRoundTrip` | yt-downloader.py:64 | reading the `M:SS` text back gives the duration that was formatted |
| `Duration.TwoDigitsExact` | yt-downloader.py:64 | any two digits are the `:02d` text of their own value |
| `Duration.ReadDurationExact` | yt-downloader.py:64 | the reader accepts only the text the display writes, so padded minutes such as `"00:30"` are refused |
| `Duration.FormatDurationInjective` | yt-downloader.py:64 | two durations display alike only if they are equal |
| `Duration.DisplayDuration` | yt-downloader.py:61-64 | the printed text reads back as the duration, or as 0 when the metadata has none, and its minutes are `str(duration // 60)`; with `ReadDurationExact` this fixes the text |
| `Duration.DisplayExamples` | yt-downloader.py:61-64 | 125 displays as "2:05", a missing duration as "0:00", and 3600 as "60:00" |
| `Cli.UrlFromInput` | yt-downloader.py:89-93 | a command-line argument is used exactly as given; otherwise the URL is the prompt line with exactly its edge whitespace cut off |
| `Cli.UrlGate` | yt-downloader.py:95-102 | the gate refuses as "no URL" exactly the empty string, and proceeds exactly when the URL is non-empty and "youtube.com" or "youtu.be" occurs in it |
| `Cli.CustomPath` | yt-downloader.py:105-106 | no custom directory exactly when the answer is all whitespace; otherwise the answer with exactly its edge whitespace cut off, which is non-empty |
| `Cli.BlankPromptIsNoUrl` | yt-downloader.py:93-97 | a prompt answer of only whitespace is treated as no URL |
| `Cli.BlankArgumentIsInvalid` | yt-downloader.py:90-102 | a whitespace-only command-line argument is not stripped, passes the emptiness check and is refused as invalid |
| `Cli.GateAcceptsWatchUrl` | yt-downloader.py:100 | `https://www.youtube.com/watch?v=abc` proceeds |
| `Cli.GateExamples` | yt-downloader.py:95-102 | `https://youtu.be/abc` and `notyoutube.com/foo` proceed, `https://vimeo.com/123` is invalid and "" is no URL |

## Left out

- The `yt_dlp.YoutubeDL` object, `extract_info` and `download` (lines 56-69). These are a foreign library doing network transfer and FFmpeg transcoding; the model takes the metadata's title and duration as inputs.
- The options dictionary (lines 40-53). It is configuration passed to the library and has no behaviour of its own here.
- `os.makedirs`, `Path.home()` and the `os.path.join` output template (lines 32-37, 42). These are file-system effects and ambient state.
- The two `except` clauses and the success/failure result of `download_youtube_audio` (lines 55-81). Their cases come from library exceptions.
- Every `print` (lines 58-72, 75, 78, 85-86, 96, 101, 111-114). This is output only. `Decision` names the message `main` prints when it stops.
- Reading `sys.argv` and calling `input()` (lines 89-93, 105). This is interactive I/O. `UrlFromInput` and `CustomPath` take the strings these produce.
- DisplayTitle: a title entry that is present but `None`, or not a string, is not modelled. `re.sub` raises `TypeError` on it and the generic handler (line 77) catches it. The model's title is a string, or missing and then "Unknown".
- A duration that is `None` or not an integer. Formatting it would raise an error that the generic handler catches. The model's duration is an `int`, or missing and then 0.
- `ReadInt` and `ReadDuration` are not part of the program. They exist only to state that the printed text determines the value and is the only text that reads back as it.
- Titles holding lone surrogate code points (U+D800 to U+DFFF). A Python `str` decoded from the metadata can hold them, but a Dafny `char` cannot, so the model's titles never contain them.
- FormatDurationRoundTrip: stated for every integer, although Python 3.11 and later refuses `str()` of an integer with more than 4300 digits. Line 64 would then raise `ValueError` and the generic handler (line 77) would catch it. No real duration comes near that size.
