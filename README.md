# create_video: a verified model of the narration pipeline's core

`create_video.py` turns a folder of slide images (`slide1.png`, `Slide2.PNG`,
…) and a narration script (`script.txt`, sections headed `SLIDE <n>`) into a
narrated video. The model covers the parts of it that decide things, not the
parts that call ffmpeg or the text-to-speech service:

- `parse_script`: find the `SLIDE <n>` headers, cut the text into sections,
  and clean each body. Cleaning drops separator lines and footers, strips
  lines, trims the ends and collapses runs of blank lines
  (module `ScriptParser`, with the Python string operations it uses in
  `Text` and `Lines`).
- `find_slide_images`: keep the names that match `slide<digits>.png` in any
  case, with a later name replacing an earlier one for the same number, and
  list them by ascending slide number (module `SlideImages`, with
  `sorted(set)` in `SortedSets`).
- Step 1 of `main`: no images stops the run. An image without narration
  stops it too. Narration without an image gives only a warning. The slides
  processed are the common numbers in ascending order
  (modules `Reconciliation` and `Setup`).
- `generate_audio`: the cached-file shortcut and the retry loop. The wait
  doubles after each failed attempt, and the error is raised after the last
  one (module `Speech`). The service is a list saying which calls succeed;
  the sleeps are recorded as a list of waits.
- `seconds_to_hms` on whole seconds (module `Timecode`).

The loops of `parse_script` and `find_slide_images`, and the `finditer`
scan, are methods proved equal to a function that specifies them:
`ParseScript`, `CleanBody`, `FindSlideImages` and `FindMarkers`. What the
program promises is then proved about those functions as lemmas. The retry
loop of `generate_audio` is the method `GenerateAudio`. Its postcondition
states the calls, the outcome and the waits directly. The straight-line
first step of `main` is the method `PrepareSlides`, proved equal to the
function `PlanFor`.

Where the source's comments and its code disagree, the model follows the
code:
- The comment at create_video.py:141 speaks of collapsing three or more
  blank lines. The `\n{3,}` substitution collapses any run of two or more
  blank lines (three or more newlines) to one blank line.
  `SquashBlankRuns` reduces every run of blank lines to one.
- The docstring calls "END OF SCRIPT" a footer. Footer lines ("END OF
  SCRIPT", "END OF NARRATION", in any case) are dropped wherever they appear
  in a section, not only at its end.
- The docstring shows separators as `=====` and `-----`. A separator line is
  any run of three or more characters each `=` or `-`, mixed or not.

Two behaviours of the source are modelled as written:
- `\s+` in the header pattern can cross a newline. `"SLIDE\n3 text"` is a
  header for slide 3.
- `text.index("\n", match.start())` then finds the newline inside the match,
  so that slide's body starts with `3 text`.

## Model

| member | source | states |
|---|---|---|
| Text.IndexFrom | create_video.py:123 | `str.index` returns a position at or after the start that holds the character; `None` stands for the `ValueError` |
| Text.IndexFromFinds | create_video.py:123 | whenever the character occurs at or after the start, the search succeeds at that occurrence or an earlier one |
| Text.Slice | create_video.py:129 | a slice with bounds inside the text is the subsequence between them; a reversed range is empty |
| Text.StripFacts | create_video.py:134 | `strip()` yields the stretch of the text between a run of leading and a run of trailing whitespace, and has no whitespace at either end; it adds no newline |
| Text.SplitLinesFacts | create_video.py:133 | no line that `splitlines()` returns holds a line-break character |
| Text.SplitLinesRoundTrip | create_video.py:133 | `splitlines()` loses only the breaks: its lines, each followed by its break, concatenate back to the text |
| Text.LineBreaksAreBreaks | create_video.py:133 | there is one break per line, each is "\r\n" or a single line-break character, and only the last line may lack one |
| Text.LineBreaksGreedy | create_video.py:133 | "\r\n" is read as one break: a lone "\r" break is never followed by an empty line ended by "\n" |
| Text.SplitLinesEdges | create_video.py:133 | the empty text has no line and any other text has at least one; a break at the very end does not start another line, so a last line without a break is never empty |
| Text.CollapseNoTriple | create_video.py:143 | after the `\n{3,}` substitution no three newlines are adjacent |
| Text.CollapseKeepsEnds | create_video.py:143 | the substitution keeps a first or last character that is not a newline |
| Text.CollapseWithoutNewlines | create_video.py:143 | the substitution leaves a text without newlines unchanged |
| Text.DecimalString | create_video.py:443 | `str(n)` is a non-empty run of digits, of two or more digits exactly when `n >= 10`, and starts with 0 only for 0 |
| Text.DecimalRoundTrip | create_video.py:120 | `int` of what `str` writes for `n` is `n` |
| Lines.SplitJoin | create_video.py:142 | splitting a `"\n".join` of newline-free lines at its newlines gives the lines back |
| Lines.StripJoin | create_video.py:142 | `strip()` of joined stripped lines is the join without the blank lines at both ends |
| Lines.DropBlankEndsFacts | create_video.py:142 | what remains after removing the blank ends starts and ends with a non-blank line, and every line of it comes from the input |
| Lines.SquashFacts | create_video.py:143 | squashing blank runs keeps the first and the last line and adds no line |
| Lines.SquashLeavesNoBlankPair | create_video.py:143 | after squashing no two blank lines are adjacent |
| Lines.SquashKeepsOneBlank | create_video.py:143 | a run of any number of blank lines between two non-blank lines is kept as exactly one blank line, and the lines on either side are squashed on their own |
| Lines.SquashSplit | create_video.py:143 | squashing acts separately on the two sides of a non-blank line |
| Lines.NonBlankSquash | create_video.py:143 | squashing blank runs removes only blank lines: the non-blank lines stay, in order |
| Lines.NonBlankDropBlankEnds | create_video.py:142 | removing the blank ends removes only blank lines: the non-blank lines stay, in order |
| Lines.CollapseJoin | create_video.py:142-143 | the `\n{3,}` substitution on joined lines with non-blank ends equals the join of the lines with every run of blank lines reduced to one |
| ScriptParser.MarkerAtMatches | create_video.py:111 | every match found at a position satisfies the whole header pattern, with its number the value of its digits |
| ScriptParser.MatchIsMarker | create_video.py:111 | any start of a line followed by SLIDE in any case, at least one whitespace character, a digit run and a non-word boundary is matched there, with that number |
| ScriptParser.MarkerAtIsHeaderMatch | create_video.py:111 | a header matches at a position with a number exactly when a line starts there with SLIDE in any case, a non-empty whitespace run, a digit run of that value and a non-word boundary |
| ScriptParser.MatchesDoNotOverlap | create_video.py:111-112 | no match starts inside another, so `finditer` finds a match at every position where one starts |
| ScriptParser.MarkersFromOrdered | create_video.py:112 | the listed matches start at line starts, in strictly increasing order |
| ScriptParser.MarkersAreAllMatches | create_video.py:111-112 | `list(finditer)` holds every match of the pattern, each once, in order of position, and nothing else |
| ScriptParser.FindMarkers | create_video.py:111-112 | the position-by-position scan returns exactly the list of matches |
| ScriptParser.KeptLinesAreBodyLines | create_video.py:133-139 | every kept line is stripped, holds no newline, and is neither a separator nor a footer |
| ScriptParser.KeptLinesOfSection | create_video.py:133-139 | the lines of a section hold no newline, and the kept ones are body lines |
| ScriptParser.KeptLinesPositions | create_video.py:133-139 | the kept lines are, in order, the stripped lines of the section at increasing positions, and a line is kept exactly when, stripped, it is neither a separator nor a footer |
| ScriptParser.KeptNarration | create_video.py:133-139 | the non-blank kept lines are exactly the section's non-blank stripped lines that are neither separators nor footers, in order |
| ScriptParser.CleanedBodyNarration | create_video.py:132-143 | cleaning loses no narration: the non-blank lines of a cleaned body are, in order, the section's non-blank stripped lines that are neither separators nor footers |
| ScriptParser.CleanedBodyLines | create_video.py:132-143 | a cleaned body is the kept lines with the blank lines at both ends removed and every run of blank lines reduced to one, joined by newlines |
| ScriptParser.CleanedBodyEnds | create_video.py:142-143 | a cleaned body has no whitespace at either end and no three newlines in a row |
| ScriptParser.BodyLinesAreKept | create_video.py:133-143 | every line of a cleaned body is one of the kept lines, stripped, without a newline, and neither a separator nor a footer |
| ScriptParser.CleanedBodyIsClean | create_video.py:132-143 | a cleaned body is trimmed, holds no triple newline, and each of its lines is stripped and is neither a separator nor a footer |
| ScriptParser.CleanBody | create_video.py:132-143 | the line loop and the join, strip and substitution compute the cleaned body, which is clean |
| ScriptParser.CleanAllIsClean | create_video.py:143-148 | cleaning every recorded section keeps the slide numbers and yields clean bodies |
| ScriptParser.NumsFromAll | create_video.py:119-120 | the numbers collected from the matches are the numbers of those matches |
| ScriptParser.ParseFromSucceeds | create_video.py:119-148 | when every remaining header has a newline after it, the loop ends normally, and its keys are the earlier keys plus the remaining matches' numbers |
| ScriptParser.ParseFromLast | create_video.py:148 | a slide number's entry is the raw section of its last header |
| ScriptParser.ParseFromKeeps | create_video.py:148 | an entry whose number does not recur is kept to the end |
| ScriptParser.ParseFromFails | create_video.py:123 | the first header without a newline after it stops the loop with that header's error |
| ScriptParser.NewlineAfterEarlierHeaders | create_video.py:123 | every header but the last has a newline after it, because the next header starts a line |
| ScriptParser.ParseFailsExactly | create_video.py:114-123 | `parse_script` raises exactly when there is no header, or when the last header has no newline after it, and says which of the two |
| ScriptParser.ParsedHeadersHaveNewlines | create_video.py:123 | after a successful parse every header had a newline after it |
| ScriptParser.ParsedKeys | create_video.py:119-148 | a successful parse has exactly one key per slide number among the headers |
| ScriptParser.ParsedLastSection | create_video.py:119-148 | for a repeated slide number the body is the cleaned section of its last header |
| ScriptParser.ParsedBodiesAreClean | create_video.py:132-148 | every body of a successful parse is clean |
| ScriptParser.SectionRange | create_video.py:122-129 | a section runs from just after its header's line end to the next header, or to the end of the text |
| ScriptParser.NoHeaderInSection | create_video.py:122-129 | no header starts inside a section's text |
| ScriptParser.ParseScript | create_video.py:91-150 | the section loop returns the specified parse, and every body in it is clean |
| SortedSets.IncreasingPairs | create_video.py:435 | in a sorted list every earlier element is smaller than every later one |
| SortedSets.Min | create_video.py:435 | the least element of a non-empty set |
| SortedSets.Sorted | create_video.py:435 | `sorted(set)` is strictly increasing, has the set's size, and holds exactly the set's elements |
| SlideImages.SlideNumberMatches | create_video.py:429-434 | every spelling of `slide<digits>.png` in any case, with or without a final newline, yields the value of its digits |
| SlideImages.SlideNumberSound | create_video.py:429-434 | a name yields a number only when it spells `slide<digits>.png` for digits of that value |
| SlideImages.SlideNameRoundTrip | create_video.py:429-434 | the name `slide<k>.png` yields `k` |
| SlideImages.ImageMapKeySource | create_video.py:431-434 | every key of the dictionary comes from a listed name |
| SlideImages.ImageMapHasKey | create_video.py:431-434 | every listed name that yields a number makes that number a key |
| SlideImages.ImageMapKeys | create_video.py:431-434 | a number is a key exactly when some listed name yields it |
| SlideImages.ImageMapLatest | create_video.py:431-434 | the file stored for a number is the last listed name that yields it |
| SlideImages.ListingFacts | create_video.py:435 | the returned dictionary lists every entry once, in strictly ascending order of slide number |
| SlideImages.FindSlideImages | create_video.py:423-435 | the directory loop and the sort produce the specified listing |
| Reconciliation.Reconcile | create_video.py:508-524 | the run stops exactly when an image has no narration, and then reports exactly those slides, sorted; otherwise the order holds exactly the image numbers, sorted, all with narration, and the warning lists exactly the narration without an image, sorted |
| Reconciliation.OrderIsSortedImages | create_video.py:524 | when the run goes on, the processing order is the sorted list of image numbers |
| Setup.ListingNumbers | create_video.py:508 | `set(slide_images)` is the set of numbers found |
| Setup.ListingEmpty | create_video.py:495 | no image is listed exactly when no name matched |
| Setup.PrepareSlides | create_video.py:494-524 | the first step of `main` yields the specified outcome |
| Setup.PlanCoversImages | create_video.py:494-524 | a plan that goes on processes a non-empty, ascending list of slides: the numbers some listed name yields, each with a clean narration body |
| Speech.GenerateAudio | create_video.py:170-215 | a cached non-empty file is reused with no call; otherwise there are at most `MAX_RETRIES` calls and every call before the last failed; success writes on the first successful attempt; after the last failure it raises; the waits are `backoff * 2 ** (attempt - 1)` after every failed attempt but the last |
| Speech.WaitsDouble | create_video.py:205 | each wait is twice the one before |
| Speech.WaitsIncrease | create_video.py:204-210 | with a positive backoff the waits strictly increase |
| Speech.TotalWait | create_video.py:204-210 | the waits before `n` retries add up to `backoff * (2 ** n - 1)` |
| Speech.DefaultBudget | create_video.py:170-215 | with three attempts and a two-second backoff one slide costs at most three calls and six seconds of waiting; a cached file costs none; when every call fails it costs exactly three calls and six seconds |
| Timecode.ClockOf | create_video.py:440-442 | the hours, minutes and seconds add back up to the duration, and minutes and seconds are below sixty |
| Timecode.Pad2Facts | create_video.py:443 | a `:02d` field is at least two digits, exactly two below a hundred, from ten on the plain decimal spelling with no leading zero, and reads back as the number |
| Timecode.HmsRoundTrip | create_video.py:438-443 | the `HH:MM:SS` text reads back as the same number of seconds |
| Timecode.HmsWidth | create_video.py:443 | below a hundred hours the text is eight characters long |

## Left out

- Reading the script file, `find_script_file` and the directory listing: the model takes the script text and the listed file names. Paths are file names.
- ffmpeg and ffprobe, and every function that runs them: `get_duration`, padding, the slide segments, concatenation and fades. They are external processes.
- The text-to-speech SDK, `_import_voice_settings`, the voice settings and the written MP3 bytes. Each call is reduced to success or failure.
- Speech.GenerateAudio: a call past the end of the given outcome list counts as a failure, and the exception the last failure raises is not carried.
- `time.sleep`: the waits are recorded, not slept.
- `require_tool`, the API-key and SDK checks, and the `sys.exit` messages: a stop is a `SetupError` value without its text.
- Every `print`, including the empty-narration warning, the image-count line with its `min`/`max`, and the warning that lists narration without an image. The list is modelled; the message is not.
- The steps of `main` after line 524 (audio and video per slide, assembly, cleanup). They only sequence external calls.
- Floating point: `RETRY_BACKOFF` and the waits are whole seconds, and `seconds_to_hms` takes a whole, non-negative number of seconds.
- Case folding and character classes beyond ASCII. `IGNORECASE`, `upper()`, `\d`, `\w` and `int()` are modelled on ASCII. Non-ASCII letters that fold to ASCII, such as U+017F, are not. Non-ASCII digits are not either. A non-ASCII letter right after a header's digits counts as a word boundary.
- ParseScript: the loop cleans each section when it reaches it. The specification `Parse` records the raw sections and cleans them afterwards. `CleanAllStore` shows the two agree.
