# Hanzi kiosk core, modelled in Dafny

A model of the logic inside a small Raspberry Pi kiosk. The kiosk has a PyQt
clock window and a flashcard window that shows Chinese characters, a terminal
flashcard program, and a script that collects image URLs from a Google Sheet.
The model covers:

- the clock window's footer text, which counts down to a target date;
- its header message, read from a text file and cached by modification time;
- the platform detection that picks the font sizes;
- the flashcard window's one-second timer;
- the terminal program's card cycle;
- the spreadsheet walk that extracts image URLs, and the file names the
  downloads are saved under.

Outside input is passed in as parameters. This covers the files read, the
clock, random draws and the API response. Exceptions that Python lets escape
become `Result.Failure`.

| file | module | models |
|---|---|---|
| results.dfy | Results | `Option`, `Result`, `dict.get(key, [])` |
| text.dfy | Text | `str(n)`, zero-padded two-digit fields, `strip()`, `in`, `startswith`/`endswith`, `readline()`, `lower()`, `split` |
| files.dfy | Files | the outcome of opening and reading a text file |
| flashcards.dfy | Flashcards | a card as a JSON object, `card.get` |
| countdown.dfy | CountdownTimer | `CountdownTimer.get_time_remaining` |
| message_reader.dfy | MessageReader | `MessageReader.read_message` |
| platform.dfy | Config | `Config.is_raspberry_pi`, `CLOCK_FONT_SIZE`, `FOOTER_FONT_SIZE` |
| characters.dfy | CharacterDisplay | the `CharacterDisplay` timer, message check and card draw |
| hanzi_display.dfy | HanziDisplay | `load_flashcards`, `display_flashcard`, `countdown_timer`, `main` |
| grab_chars.dfy | GrabChars | `get_column_images`, the file names of `download_images` |

Some behaviour of the code that the model keeps as it is:

- `read_message` catches only `IOError`/`OSError`. A file that is not valid
  UTF-8 therefore raises `UnicodeDecodeError` out of the call. It is not
  reported as an "Error reading message" text.
- `is_raspberry_pi` catches only `FileNotFoundError`. Any other error while
  reading the three files escapes rather than yielding `False`.
- `formula.split('"')[1]` is the text from the first double quote to the
  next one, or to the end of the formula. It is not necessarily the URL of
  a well-formed `=IMAGE("…")` formula. A formula with no quote raises
  `IndexError`.
- A fresh `MessageReader` has `_last_modified = 0`. A file whose mtime is not
  positive is therefore never read, and the reader shows "No message
  available".

## Model

| member | source | states |
|---|---|---|
| CountdownTimer.MidnightPlus | clock.py:201 | `QTime(0, 0, 0).addSecs(secs)` is a time of day: under 24 hours, equal to `secs` within the first day, and otherwise `secs` wrapped around by whole days, negative counts included |
| CountdownTimer.Decompose | clock.py:194-201 | the time left splits into whole days plus an hours/minutes/seconds part that `QTime(0,0,0).addSecs` can show; every field is in range, the parts add back up to the seconds left, and a non-positive count is "over" |
| CountdownTimer.TimeRemaining | clock.py:191-204 | the text is "Countdown over!" exactly when no time is left; otherwise it parses back to the days/hours/minutes/seconds decomposition of the time left, with the days written as `str` writes them (no leading zeros) |
| CountdownTimer.RenderRoundTrip | clock.py:203-204 | the "D days, hh hrs, mm mins, ss secs" rendering of an in-range decomposition parses back to it |
| CountdownTimer.CountdownReadsBack | clock.py:191-204 | the footer text of a positive count reads back to exactly that many seconds; the "over" text reads back as nothing |
| CountdownTimer.CountdownTextInjective | clock.py:191-204 | two different positive counts never produce the same footer text |
| MessageReader.Shown | clock.py:179 | a non-empty cached line is returned as it is, and an empty one becomes "No message available" |
| MessageReader.ReadMessage | clock.py:161-182 | a missing file gives "Message file not found" and an OSError gives "Error reading message: …", both leaving the cache alone; the file is re-read only when its mtime is strictly newer; only a successful read advances the cache; the message is never empty; the cached mtime never decreases; a decode error escapes |
| MessageReader.ReadAgainChangesNothing | clock.py:172-179 | a second call on an unchanged file returns the same text and leaves the reader as it was |
| MessageReader.Replay | clock.py:166-182 | a series of calls yields one message per call, and the cached mtime only grows |
| MessageReader.ReplayOne | clock.py:166-182 | a run of one call is that call: its exception, or its reader and its message as the only one |
| MessageReader.ReplayAppend | clock.py:166-182 | a run over two stretches of calls is the first stretch, then the second from the reader the first leaves, with the messages in call order; the first escaping exception ends the run |
| MessageReader.MessageAt | clock.py:166-182 | in a run that does not fail, message k is what the k-th call returns to the reader the calls before it leave |
| MessageReader.StaleUntilNewer | clock.py:172-179 | while no probe has an mtime newer than the cached one, the file is never opened, every call on an existing file shows the cached message, and the reader ends as it started |
| MessageReader.FreshReaderShowsFirstLine | clock.py:161-179 | a new reader shows the stripped first line, when it is not blank, of a file with a positive mtime |
| Config.AnyMarker | clock.py:35 | trying the markers in order finds one exactly when some marker occurs in the text |
| Config.StrippedModelAgrees | clock.py:43-44 | stripping the model text does not change whether "Raspberry Pi" occurs in it |
| Config.IsRaspberryPi | clock.py:28-58 | the answer is yes exactly when one of the three files that was reached names the board; a missing file moves on to the next method; any other error on a file that is reached (the earlier files neither naming the board nor raising) escapes as the call's exception, and only such an error does |
| Config.DetectFonts | clock.py:86-95 | from one reading of the three files, the clock/footer fonts are 100/10 when the board is detected and 300/50 otherwise, always as a pair; detection errors propagate |
| Text.NatToStringRoundTrip | clock.py:203 | the decimal digits printed for a count of days read back to that count |
| Text.Pad2 | clock.py:203-204 | a two-digit `hh`/`mm`/`ss` field is exactly two digits that read back to its value |
| Text.Strip | clock.py:176 | `strip()` removes exactly the whitespace at both ends and keeps the middle as a slice of the input |
| Text.StripKeepsWord | clock.py:43-44 | a word with non-space ends occurs in a stripped text exactly when it occurs in the original |
| Text.ContainsIffOccurs | clock.py:35 | `sub in s` holds exactly when `sub` occurs at some position of `s` |
| Text.ReadLine | clock.py:176 | `readline()` returns a prefix of the text that has no newline before its end and ends with a newline unless it reaches the end of the text |
| Text.FirstLine | characters.py:221 | `readline().strip()`: for the position where the first line ends (the first newline, or the end of a text without one), the result is that line with the whitespace at both ends removed; it has no newline and no whitespace at its ends |
| Text.FirstLineOfLine | characters.py:221 | a text that starts with a newline-free word with non-space ends, followed by a newline, gives exactly that word, whatever follows |
| Text.FirstLineExample | characters.py:221 | "hello\nworld\n" gives "hello" |
| Text.StripUnique | clock.py:176 | any slice with only whitespace around it and non-space ends is what `strip()` returns |
| Text.IntToString | characters.py:201-202 | the f-string `{n}` of the countdown label: the decimal digits of a non-negative number, and a minus sign followed by the digits of its magnitude for a negative one |
| Text.Lower | gsheet/grab_chars.py:61 | `lower()` keeps the length, turns each ASCII capital into its small letter, leaves every other character alone, and leaves no ASCII capital behind |
| Flashcards.FieldOr | characters.py:239-241 | `card.get(key, default)`: the card's value when the key is present, the default otherwise |
| Flashcards.TruthyIsNonEmptyGet | hanzi_display.py:49-55 | `if card.get(key):` holds exactly when the key is present with a non-empty value |
| Text.Split | gsheet/grab_chars.py:49 | no piece contains the separator, and there is more than one piece exactly when the separator occurs |
| Text.SplitJoinRoundTrip | gsheet/grab_chars.py:49 | joining the pieces of a split with the separator gives back the input |
| CharacterDisplay.LoadFlashcards | characters.py:137-148 | the parsed list, or no cards at all when loading fails for any reason |
| CharacterDisplay.CheckForMessage | characters.py:214-228 | the header changes only to a non-empty stripped first line of a readable file, always takes such a line, and never goes blank once it shows something |
| CharacterDisplay.DisplayRandomCharacter | characters.py:230-241 | with no cards nothing changes; otherwise `current_index` becomes the drawn index and the labels show that card's "Hanzi" and "Pinyin" (empty when absent), and nothing else changes |
| CharacterDisplay.UpdateCharacter | characters.py:209-241 | one refresh: the message check first and then, when there are cards, the draw; with cards, `current_index`, the character label and the frame label come from the drawn card; with no cards they are left as they were; the header is the message check's; the counter, its label and the cards are untouched |
| CharacterDisplay.Tick | characters.py:199-207 | the counter drops by one and the label shows the new value; at zero or below exactly one refresh runs and the counter returns to ten; otherwise only the counter and its label change; the header changes only to a non-empty first line of the message file; the counter stays within 1..10 |
| CharacterDisplay.RefreshTick | characters.py:199-241 | the tick that reaches zero has the actions of `_update_character` and leaves the display as it leaves it, apart from the counter reset to ten and the label showing the dropped value; with cards, `current_index`, the character and the frame show the drawn card |
| CharacterDisplay.Run | characters.py:127-135 | any number of ticks keeps the cards and keeps the counter within 1..10 |
| CharacterDisplay.RefreshesAppend | characters.py:199-207 | counting refreshes is additive over consecutive runs of ticks |
| CharacterDisplay.RunCounts | characters.py:199-207 | after k ticks from a counter at c, with m = k + 10 - c, the counter is in 1..10 and m is ten times the number of refreshes fired plus ten minus the counter's reading |
| CharacterDisplay.PeriodSplit | characters.py:199-207 | that split is unique: the counter reads 10 - (m mod 10) and m div 10 refreshes have fired |
| CharacterDisplay.RunFollowsCounter | characters.py:199-207 | a run of ticks moves the counter and fires refreshes exactly as the counter alone, dropping by one and resetting to ten at zero, does |
| CharacterDisplay.CounterClosedForm | characters.py:199-207 | the counter alone, from c in 1..10, reads 10 - (m mod 10) after k ticks, having reached zero m div 10 times |
| CharacterDisplay.ResetIsInterval | characters.py:207 | the counter's reset value is the update interval in whole seconds |
| CharacterDisplay.TenTicksOneRefresh | characters.py:38-39 | from a fresh counter, ten one-second ticks fire exactly one refresh (message check, then a draw when there are cards) and bring the counter back to ten |
| CharacterDisplay.Start | characters.py:73-83 | the window starts with the counter at ten and the label "10s", then runs exactly one refresh: the header is the message check's outcome on the empty default; with no cards `current_index` is 0, the character label empty and the frame "..."; with cards the drawn card is current and shown |
| HanziDisplay.LoadFlashcards | hanzi_display.py:7-24 | the parsed list, or None exactly when loading failed |
| HanziDisplay.Truncate | hanzi_display.py:55-58 | a description of at most 200 characters is shown unchanged; a longer one is shown as its first 200 characters followed by "..." |
| HanziDisplay.ShowCard | hanzi_display.py:26-65 | a card fails exactly when "Hanzi" or "Pinyin" is missing; the heading carries the number and total; meaning and description appear exactly when present and non-empty, the latter truncated |
| HanziDisplay.CountdownTimer | hanzi_display.py:67-75 | the countdown shows `seconds`, `seconds - 1`, …, 1 and then a final 0 |
| HanziDisplay.Shuffle | hanzi_display.py:95-96 | the Fisher–Yates swaps of `random.shuffle` give a permutation of the deck |
| HanziDisplay.RunProgram | hanzi_display.py:77-111 | the program exits at once exactly when loading fails or the deck is empty; otherwise the k-th card shown is card k mod n of a permutation of the deck, numbered k mod n + 1 of n; it stops at the first card missing a required key, which can only be one of the `steps` cards reached before the interruption |
| HanziDisplay.NextIndex | hanzi_display.py:111 | advancing the index by one modulo n keeps it equal to the number of cards shown, modulo n |
| HanziDisplay.CycleVisitsEachCardOnce | hanzi_display.py:99-111 | any n consecutive cards of the cycle visit every card of the shuffled deck exactly once |
| GrabChars.QuotedField | gsheet/grab_chars.py:49 | `split('"')[1]` raises IndexError exactly when the formula has no double quote, and otherwise gives a quote-free piece |
| GrabChars.QuotedFieldPosition | gsheet/grab_chars.py:49 | the piece sits right after the formula's first double quote and runs to the next double quote or to the end |
| GrabChars.CellUrls | gsheet/grab_chars.py:40-49 | a cell without a value adds nothing; an image cell adds its URL or raises KeyError without one; otherwise a formula starting with `=IMAGE(` adds the text after its first double quote, up to the next one, or raises IndexError when it has no double quote, and any other cell adds nothing; a cell adds at most one URL |
| GrabChars.GatherConcat | gsheet/grab_chars.py:35-50 | walking nested lists gives the same result as walking their concatenation, including which exception comes first |
| GrabChars.TraversalIsCellOrder | gsheet/grab_chars.py:35-50 | the four nested loops, with missing keys read as empty lists, visit exactly the response's cells in sheet, grid, row, cell order |
| GrabChars.CellWalk | gsheet/grab_chars.py:39-49 | walking cells succeeds exactly when no cell raises, then yields each cell's URLs in order and at most one per valued cell; otherwise it raises what the first raising cell raises |
| GrabChars.GetColumnImages | gsheet/grab_chars.py:25-50 | `get_column_images` is the cell walk over the response's cells in order: it raises exactly when some cell raises, with the first raising cell's exception, and otherwise returns each cell's URLs in order, never more URLs than cells with a value |
| GrabChars.LowerEndsWithJpg | gsheet/grab_chars.py:61 | lower-casing before the ".jpg" test makes it case-insensitive |
| GrabChars.Extension | gsheet/grab_chars.py:61 | the extension is "jpg" exactly when the URL ends in ".jpg" in any case, and "png" otherwise |
| GrabChars.ImageFileName | gsheet/grab_chars.py:61-62 | the path is the output folder and "/image_", then the decimal number, then "." and the extension chosen from the URL |
| GrabChars.ImageFileNameInjective | gsheet/grab_chars.py:62 | different download numbers give different file names |
| GrabChars.DownloadPlan | gsheet/grab_chars.py:56-62 | one name per URL: the k-th URL in list order, counting from 0, is saved as "image_" in the output folder, followed by k + 1 and its own extension; no two names coincide; a name ends in ".jpg" exactly when its URL ends in ".jpg" in any case |

## Left out

- The Qt user interface is not modelled: widgets, layout, styles, the cursor and full-screen handling. Only the texts the labels show are modelled.
- `QTimer` scheduling is not modelled. Each timer callback is one `CharacterDisplay.Tick`, and the clock window's `update_clock`/`update_message` wiring is left out.
- Reading the clock (`QDateTime.currentDateTime`, `secsTo`) is not modelled. The seconds left are an input to `CountdownTimer.TimeRemaining`.
- Randomness is not modelled. `random.randrange` is the `pick` of an `Env`, and `random.shuffle` is its list of draws.
- Real file and JSON I/O is not modelled. Files arrive already read, as `FileRead`, `Probe` or `DeckFile`, and a card is a map from string keys to string values. Non-string JSON values and a top-level JSON value that is not a list are not modelled.
- Console output is not modelled: `print`, clearing the screen, `time.sleep`, and the `\r` redraw of the countdown line. A card is modelled as the `CardView` it shows, and the countdown as the numbers it shows.
- Ctrl+C is not modelled as an asynchronous event. It takes effect between cards, after the `steps` cards of `HanziDisplay.RunProgram`.
- The Google API client, authentication, `verify_access` and the HTTP download are left out. The parsed response is the input, and only the file names of `download_images` are modelled, not whether each download or save succeeds.
- The IP address label (`get_ip_address`), `NetworkUtils`, `is_macos` and `get_platform_info` are left out. They are calls into the operating system and network.
- The Discord listener, `download_flashcards.py`, `rotated.py`, `get_images.py` and `basic_sheet_access.py` are not part of this model.
- Config.DetectFonts: `CLOCK_FONT_SIZE` and `FOOTER_FONT_SIZE` each call `is_raspberry_pi()` again; the model reads the three files once and assumes they read the same on every call, which is what makes the two sizes always a matching pair.
- Text.Lower: folds only ASCII letters, whereas Python's `lower()` folds all of Unicode; this affects only the ".jpg" test, whose letters are ASCII.
- MessageReader.ReadMessage: `st_mtime` is a `real`, not an IEEE double, so rounding of modification times is not modelled.
- Text.ReadLine: the text is taken after universal-newline translation, so only '\n' ends a line.
