# Cover-letter generator: a verified model of its text logic

The cover-letter generator reads a resume PDF, asks a remote text-generation
service for a letter and for a title, and writes the letter as a PDF named
after the title. Almost all of it is glue around foreign libraries and the
network. This project models the three pieces of pure text logic in
`Test.py`, together with the Python string built-ins they rely on:

- **Resume reader** (`resume_reader.dfy`, `Test.py:49`): the per-page texts
  (`None` for a page without text) become one string, `""` standing in for
  `None`, with a single line feed *between* neighbouring pages. The code
  joins with `"\n".join(...)`, so there is no line feed after the last page;
  this differs from the "terminated" form, in which every page's text,
  the last one included, is followed by a line feed.
  `ResumeReader.SeparatorBetweenNotAfter` states the exact difference: the
  joined text plus one final line feed is the terminated form.
- **Document composer** (`composer.dfy`, `Test.py:88-106`): `save_to_pdf`
  builds its story (the list of flowables handed to the renderer) by
  appending. It starts with a fixed six-item header: name, email and phone
  number in the header style, a 12-point spacer, the date line, then a
  24-point spacer. One paragraph follows for each piece of
  `text.strip().split("\n\n")`. A countdown `n`, starting at the paragraph
  count, picks the style. A paragraph is in the body style (indented,
  justified) while `n > 3`, and otherwise in the header style (flush left).
  So the last three paragraphs are always in the header style, and so is
  every paragraph of a letter with three paragraphs or fewer. The model keeps
  this literal behaviour. `Composer.SaveToPdf` is the imperative method with
  the countdown loop, and it is proved equal to the specification function
  `Composer.Story`.
- **Output naming** (`naming.dfy`, `Test.py:147-148`): the title has every
  `/` replaced by `_`, then surrounding whitespace stripped. The file name is
  that plus `.pdf`, inside `Cover_Letters` under the base directory. Paths are
  modelled as POSIX `pathlib` builds them.
- **Date line** (`date_format.dfy`, `Test.py:96`): `strftime("%B %d, %Y")`
  for a given date. Reading the clock stays outside the model.
- **Python string built-ins** (`py_text.dfy`): `isspace` with Python 3's
  whitespace set, `strip()`, `split(sep)` (leftmost, non-overlapping, empty
  pieces kept, always at least one piece), `sep.join(parts)` and the
  single-character `replace`. `split` is proved against an independent
  definition: it is the one cut of the string, at leftmost occurrences of
  the separator, that joins back to the string.

`wrappers.dfy` holds the `Option` type used for pages that yield no text.

## Model

| member | source | states |
|---|---|---|
| `PyText.Strip` | Test.py:100 | the result has no leading or trailing whitespace, and it is a stretch of the input with only whitespace before and after it |
| `PyText.StripPosition` | Test.py:100 | names the index where the stripped text starts: only whitespace lies before it and after the stripped stretch |
| `PyText.StripUnique` | Test.py:100 | any cut of the text into a whitespace prefix, a trimmed middle and a whitespace suffix has `Strip` as its middle, so `strip()` has exactly one answer |
| `PyText.StripIdempotent` | Test.py:147 | stripping a stripped string changes nothing |
| `PyText.StripEmptyIffBlank` | Test.py:100 | `strip()` gives the empty string exactly when the text is all whitespace |
| `PyText.ReplaceChar` | Test.py:147 | same length as the input; each character equal to `from` becomes `to`, and every other character is kept |
| `PyText.Split` | Test.py:100-101 | `split(sep)` always yields at least one piece |
| `PyText.SplitJoin` | Test.py:100-101 | joining the pieces of a split with the separator gives back the original string |
| `PyText.SplitLeftmost` | Test.py:100-101 | every piece but the last ends at the first occurrence of the separator, and the last piece holds no separator |
| `PyText.SplitUnique` | Test.py:100-101 | a list of pieces cut at leftmost occurrences is the split of its own join, so the split is the only such cut |
| `PyText.SplitCons` | Test.py:100-101 | a piece without an earlier separator, then the separator, then a tail splits into that piece followed by the pieces of the tail |
| `PyText.SplitWithoutSeparator` | Test.py:148 | a string without the separator splits into itself alone |
| `PyText.SplitPiecesAvoidSeparator` | Test.py:101 | no piece of a split contains the separator |
| `PyText.Join` | Test.py:49 | `sep.join(parts)`; its properties are stated by `PyText.JoinLength`, `PyText.JoinPieceAt`, `PyText.JoinThenSeparator`, `PyText.JoinCount`, and `PyText.SplitJoin` / `PyText.SplitUnique` as the inverse of split |
| `PyText.JoinLength` | Test.py:49 | a join is as long as all its parts plus one separator between each pair of neighbours |
| `PyText.JoinPieceAt` | Test.py:49 | part `i` stands unchanged in the join, after all earlier parts and one separator each, and is followed by exactly one separator unless it is last |
| `PyText.JoinThenSeparator` | Test.py:49 | a non-empty join plus one final separator equals the form where every part is followed by the separator |
| `PyText.JoinCount` | Test.py:49 | joining with a one-character separator adds exactly `len(parts) - 1` copies of it |
| `ResumeReader.ExtractText` | Test.py:49 | the page texts joined with `"\n"`; its properties are stated by `ResumeReader.PagesInOrder`, `ResumeReader.ExtractedLength`, `ResumeReader.InsertedLineFeeds`, `ResumeReader.NoPagesNoText` and `ResumeReader.SeparatorBetweenNotAfter` |
| `ResumeReader.PageTexts` | Test.py:49 | one text per page, in page order; a page with no text gives `""` |
| `ResumeReader.PagesInOrder` | Test.py:49 | each page's text stands unchanged in the result, at the offset after the earlier pages and their line feeds, and every page but the last is followed by a line feed |
| `ResumeReader.NoPagesNoText` | Test.py:49 | a document with no pages gives the empty string |
| `ResumeReader.ExtractedLength` | Test.py:49 | for `k >= 1` pages, the result is as long as the page texts plus `k - 1` line feeds |
| `ResumeReader.InsertedLineFeeds` | Test.py:49 | for `k >= 1` pages, the result holds exactly `k - 1` more line feeds than the pages themselves |
| `ResumeReader.SeparatorBetweenNotAfter` | Test.py:49 | the line feed goes between pages: adding one final line feed gives the every-page-followed-by-a-line-feed form |
| `DateFormat.FormatDate` | Test.py:96 | `strftime("%B %d, %Y")`; `DateFormat.FormatDateRoundTrip` proves it parses back to the date and `DateFormat.FormatDateInjective` that distinct dates give distinct lines |
| `DateFormat.TwoDigits` | Test.py:96 | `%d` gives the day as exactly two digits |
| `DateFormat.ParseDecimalOfDecimal` | Test.py:96 | `%Y` gives the year as a decimal numeral that reads back as the year |
| `DateFormat.MonthNameRoundTrip` | Test.py:96 | `%B` gives a month name without spaces that names back the same month |
| `DateFormat.FormatDateRoundTrip` | Test.py:96 | the `"%B %d, %Y"` date line parses back to exactly the date formatted |
| `DateFormat.FormatDateInjective` | Test.py:96 | two dates with the same date line are the same date |
| `Composer.Paragraphs` | Test.py:100-101 | the stripped text split on blank lines has at least one paragraph, even when the text is empty or all whitespace |
| `Composer.Story` | Test.py:88-106 | the closed form of the story; `Composer.SaveToPdf` is proved equal to it, and `Composer.StoryLayout`, `Composer.StyleCounts` and `Composer.ParagraphsRejoin` state its layout, style counts and texts |
| `Composer.SaveToPdf` | Test.py:88-106 | the story built by appending, with the countdown loop, is exactly `Story`: the header block, then each paragraph styled by its position |
| `Composer.StoryLayout` | Test.py:88-106 | the story has `6 + n` items: name, email and number in the header style, `Spacer(1, 12)`, the date line in the header style and `Spacer(1, 24)`, then paragraph `i` with style `StyleAt(n, i)` |
| `Composer.BodyStyleIffNotLastThree` | Test.py:102-106 | paragraph `i` of `n` is in the body style if and only if `i < n - 3` |
| `Composer.BodyBeforeHeader` | Test.py:102-106 | once a paragraph is in the header style, no later paragraph is in the body style |
| `Composer.StyleCounts` | Test.py:88-106 | the story holds exactly `max(n - 3, 0)` body-style paragraphs and `min(n, 3) + 4` header-style paragraphs |
| `Composer.HeaderBlockCounts` | Test.py:90-97 | the header block holds four header-style paragraphs and no body-style one |
| `Composer.HeaderTexts` | Test.py:90-97 | the header block carries exactly the texts name, email, number and the date line, in that order |
| `Composer.ParagraphsRejoin` | Test.py:90-105 | the story's paragraph texts are name, email, number, date line, then the letter's paragraphs once each in order; the latter joined with `"\n\n"` give back the stripped text |
| `Composer.ParagraphsAreTheCut` | Test.py:100-101 | a list of pieces is the paragraph list exactly when it joins back to the stripped text and is cut at leftmost blank lines |
| `Composer.BlankLetter` | Test.py:100-105 | an empty or all-whitespace letter has the single paragraph `""`, set in the header style |
| `Composer.TwoParagraphs` | Test.py:100-101 | the text `"Hi\n\nBye"` has the two paragraphs `"Hi"` and `"Bye"` |
| `Composer.TwoParagraphLetter` | Test.py:100-106 | in a two-paragraph letter both paragraphs are set in the header style |
| `Naming.SafeTitle` | Test.py:147 | the safe title contains no `/` and has no leading or trailing whitespace |
| `Naming.StretchOfReplaced` | Test.py:147 | a stretch of the slash-replaced title with only whitespace around it is a sanitised stretch of the original title |
| `Naming.SafeTitleFromTitle` | Test.py:147 | the safe title is a stretch of the title with each `/` turned into `_`, and only whitespace of the title lies outside that stretch |
| `Naming.SafeTitleIdempotent` | Test.py:147 | sanitising a safe title returns it unchanged |
| `Naming.SafeTitleOfTrimmed` | Test.py:147 | a title without surrounding whitespace only has its slashes replaced |
| `Naming.Components` | Test.py:148 | a piece value appears in the result if and only if it appears in the input and is neither empty nor `.`; the result is no longer than the input, and a list with nothing to drop is kept unchanged. Order and repeats when something is dropped are stated by `Naming.ComponentsConcat` and `Naming.ComponentsOne` |
| `Naming.ComponentsConcat` | Test.py:148 | the components of two lists put together are the components of each, in order; with `Naming.ComponentsOne` this makes `Components` exactly the order-keeping filter |
| `Naming.ComponentsOne` | Test.py:148 | a single piece is kept exactly when it is neither empty nor `.` |
| `Naming.SingleComponent` | Test.py:148 | a non-empty string other than `.` without `/` parses as one relative path component |
| `Naming.JoinTwoComponents` | Test.py:148 | joining two relative single components onto a path appends exactly those two components |
| `Naming.OutputPath` | Test.py:148 | `BASE_DIR / "Cover_Letters" / f"{safe_title}.pdf"`; `Naming.OutputPathShape` proves it is the base path plus exactly those two components |
| `Naming.OutputFileName` | Test.py:148 | the file name contains no `/` |
| `Naming.OutputPathShape` | Test.py:148 | for every title, the output path is the base path plus exactly the two components `Cover_Letters` and safe title + `.pdf` |

## Left out

- PDF rendering with reportlab (`Test.py:60-86`, `108`): page size, margins, fonts and `doc.build` are foreign library calls. Only the two paragraph styles remain, as the tags `HeaderStyle` and `BodyStyle`.
- Composer.SaveToPdf: reportlab's `Paragraph` (`Test.py:90-92`, `96`, `103`, `105`) reads its text as markup (tags and entities) and raises on a tag it does not know, such as a letter containing `<Company Name>`; the exception ends in the catch-all at `Test.py:156-159` and no PDF is written. The model keeps each paragraph's raw text and treats building the story as always succeeding.
- PDF text extraction with PyPDF2 (`Test.py:48-49`) is a foreign parser. The model starts from the list of per-page results.
- The remote generation service and its two prompts (`Test.py:38`, `124-139`) are network calls with unpredictable output. The letter text and the title are inputs of the model.
- Loading the configuration and environment, and finding the base directory (`Test.py:12-43`), are environment and file I/O. The profile and the base path are inputs.
- `Test.py:27` creates `Cover_Letters` relative to the current working directory, while the letter is written under `BASE_DIR / "Cover_Letters"` (`Test.py:12-17`, `148`). The two agree only when the program runs from its base directory. Otherwise the output directory may be missing, writing the PDF raises, the catch-all at `Test.py:156-159` reports it, and no file is written. The model covers only where the file goes (`Naming.OutputPathShape`), not whether that directory exists.
- `input`, `print` and the top-level catch-all with its final keypress wait (`Test.py:118`, `141-161`) are console plumbing.
- `datetime.now()` (`Test.py:96`) reads the clock. The date is an input, limited to dates a `datetime` can hold.
- DateFormat.FormatDate: `%B` is modelled in the C locale (English month names), and `%Y` as the year's digits without padding, as glibc writes it. Zero-padding of years before 1000 differs between platforms and Python versions; newer CPython releases pad `%Y` to four digits themselves.
- Naming.OutputPath: only POSIX paths are modelled. On Windows, `\` also separates components and the sanitiser does not replace it. `pathlib`'s special two-slash root is not modelled either; it cannot arise here because the joined names never start with `/`.
- PyText.Split: requires a non-empty separator; Python raises `ValueError` on an empty one, and the separators used are constants: `"\n\n"` for the paragraphs (`Test.py:100-101`), and `/` in `Naming.ParsePath`, which models how `pathlib` parses a path rather than a `split` call in the program.
- Strings are sequences of Unicode scalar values. The lone surrogates a Python `str` can hold are not represented.
