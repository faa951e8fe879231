# Duplicate-word highlighter of the Digital Document Authenticator

The Digital Document Authenticator is a Streamlit page. It takes an uploaded
PDF, text file, Word document or image and shows it back. Almost all of its
work is done by libraries: PDF text extraction, python-docx, PIL filters,
OCR, and a TensorFlow model in a sibling script. The logic the repository
writes itself is small:

- `highlight_duplicate_text` (somnath.py) splits a text on whitespace. It
  walks the words left to right, keeping a dictionary of occurrence counts.
  It emits every word once, in order, separated by single spaces. The first
  occurrence of a word is emitted as it is. Every later occurrence is wrapped
  in Markdown bold markers, `**word**`. The trailing space is stripped.
- `display_pdf_pages` (somnath.py) takes the strings the PDF viewer's canvas
  yields (`viewer.canvas.strings`, which the code calls `pages`). It checks a
  1-based page number against their count. It then shows the string at that
  position or reports "Invalid page number".

The project has three modules:

- `Words` (words.dfy) gives the Python string primitives the highlighter
  calls: `str.split()` as `Split` and `str.strip()` as `Strip`. The Python
  code never calls `" ".join`: it appends `token + " "` per word
  (`Terminated`) and strips the result. `Join` is how the model writes that
  stripped accumulator, and `TerminatedIsJoinPlusSpace` and
  `StripTerminated` connect the two. The lemmas say what `Split` means. Every
  text is its words interleaved with non-empty whitespace gaps
  (`SplitRuns`). A text splits into no words exactly when it is blank. The
  words keep every non-whitespace character and nothing else. Splitting
  joined words gives the words back.
- `Highlighter` (highlighter.dfy) holds the specification `Highlight`. It is
  stated through `Marked`: token `i` is the word in bold exactly when the
  same word occurs before position `i`. `HighlightDuplicateText` is the
  loop of `highlight_duplicate_text` in somnath.py, with a `map<string, int>` for `word_count` and an
  accumulating string for `highlighted_text`. It is proved to return
  `Highlight(text)`. Its loop invariant says the dictionary's keys are
  exactly the distinct words seen so far. Each value is that word's number of
  occurrences among them. The lemmas prove the properties of the output.
- `PdfPages` (pdf_pages.dfy) gives the page-number check and the selection
  in `display_pdf_pages`, over an abstract sequence standing for
  `viewer.canvas.strings`.

Whitespace is a fixed predicate, `Words.IsSpace`. It holds for the characters
for which CPython's `str.isspace()` is true: U+0009 to U+000D, U+001C to
U+0020, U+0085, U+00A0, U+1680, U+2000 to U+200A, U+2028, U+2029, U+202F,
U+205F and U+3000. `split()` and `strip()` both use this classification.
`PrintableAsciiNotSpace` states that no printable ASCII character, the `*`
of the bold markers included, is whitespace. `Strip` drops `LeadingSpaces(s)`
characters from the front and `TrailingSpaces` of the rest from the back.

## Model

| member | source | states |
|---|---|---|
| `Highlighter.HighlightDuplicateText` | somnath.py:21-34 | The dictionary-and-accumulator loop returns exactly `Highlight(text)`. Its invariant states that after `k` words, `word_count`'s keys are the distinct words among them and each count is that word's number of occurrences. |
| `Highlighter.Highlight` | somnath.py:21-34 | The returned text, split on whitespace again, gives exactly the marked tokens of the input's words. |
| `Highlighter.TallyStep` | somnath.py:27-31 | A word is a key of `word_count` iff it occurred before. Incrementing a present word's count, or adding an absent word with count 1, keeps the keys equal to the distinct words and every count exact. |
| `Highlighter.AccumulateStep` | somnath.py:26-32 | After one more word, `highlighted_text` is the previous accumulator followed by that word's token and one space. |
| `Highlighter.Bold` | somnath.py:29 | `f"**{word}**"` never equals the word, and it is still free of whitespace and non-empty. |
| `Highlighter.MarkWord` | somnath.py:27-32 | A word is emitted unchanged iff it is not among the words seen before. Otherwise it is emitted in bold. |
| `Highlighter.Marked` | somnath.py:26-32 | Exactly one token is emitted per word. |
| `Highlighter.MarkedAt` | somnath.py:26-32 | Token `i` is `**w**` if word `w = ws[i]` occurs among the words before `i`, and `w` itself otherwise. |
| `Highlighter.FirstPlainLaterBold` | somnath.py:27-32 | A token is the plain word iff no earlier word equals it. It is the word in bold iff some earlier word equals it. |
| `Highlighter.MarkedAreWords` | somnath.py:29-32 | Every emitted token is non-empty and free of whitespace. |
| `Highlighter.MarkedCount` | somnath.py:26-32 | The number of tokens that differ from their word is the number of words minus the number of distinct words. |
| `Highlighter.MarkedUnchangedIff` | somnath.py:30-32 | No token is marked iff no word repeats. |
| `Highlighter.TokensCorrespond` | somnath.py:22-34 | Splitting the output on whitespace gives the marked tokens. They match the input's words one to one and in order, each the word or `**word**`. |
| `Highlighter.BlankGivesEmpty` | somnath.py:22-34 | The output is the empty string iff the input is empty or only whitespace. |
| `Highlighter.NoRepeatsGivesPlainJoin` | somnath.py:30-34 | The output is the words joined by single spaces, with no marker added, iff no word repeats. |
| `Highlighter.CaseSensitive` | somnath.py:27 | Word identity is exact string equality: `"A a"` gives `"A a"`. |
| `Highlighter.RepeatMarked` | somnath.py:26-34 | `"a a b"` gives `"a **a** b"`: the first `a` is plain and the second is bold. |
| `Words.PrintableAsciiNotSpace` | somnath.py:22 | No printable ASCII character is whitespace. In particular the `*` of the bold markers is not, so `split()` and `strip()` never cut or remove a marker (somnath.py:34 too). |
| `Words.SplitRuns` | somnath.py:22 | Every text is exactly `gap0 + w0 + gap1 + ... + wn + gapn`. Here the `w` are the words of `split()`, every gap is whitespace only, and every gap between two words is non-empty. |
| `Words.LeadingWord` | somnath.py:22 | The result is the longest whitespace-free prefix of the text. It is non-empty when the text starts with a non-whitespace character. |
| `Words.Split` | somnath.py:22 | Every word `str.split()` yields is non-empty and free of whitespace. |
| `Words.SplitEmptyIff` | somnath.py:22 | Splitting yields no words iff the text is empty or all whitespace. |
| `Words.SplitKeepsNonSpace` | somnath.py:22 | The words, concatenated, are exactly the text's non-whitespace characters, in order. |
| `Words.SplitJoin` | somnath.py:22 | Splitting words joined by single spaces gives back the same words. |
| `Words.LeadingSpaces` | somnath.py:34 | The count is at most the text's length. Every character before it is whitespace, and the character at it, if any, is not. |
| `Words.TrailingSpaces` | somnath.py:34 | The count is at most the text's length. The last that many characters are whitespace, and the one before them, if any, is not. |
| `Words.TrimStart` | somnath.py:34 | The result is a suffix of the text. Everything removed is whitespace. The result does not start with whitespace. |
| `Words.TrimEnd` | somnath.py:34 | The result is a prefix of the text. Everything removed is whitespace. The result does not end with whitespace. |
| `Words.Strip` | somnath.py:34 | The result neither starts nor ends with whitespace. It is empty iff the text is all whitespace. |
| `Words.StripInfix` | somnath.py:34 | `strip()` returns a contiguous slice `s[i..j]` of the text, and everything before `i` and after `j` is whitespace. |
| `Words.Terminated` | somnath.py:24-32 | Accumulating `token + " "` gives the empty string for no words. Otherwise it ends with the space after the last token. |
| `Words.TerminatedIsJoinPlusSpace` | somnath.py:29-32 | Appending `token + " "` per token builds the single-space join of the tokens followed by one space. |
| `Words.JoinEmptyIff` | somnath.py:34 | Joined words are empty iff there are no words. |
| `Words.StripTerminated` | somnath.py:34 | Stripping the accumulated string removes exactly the one trailing space. |
| `PdfPages.SelectPage` | somnath.py:12-16 | A page number below 1 or above the page count is rejected. Otherwise the result is exactly `pages[page_number - 1]`. |
| `PdfPages.PageNumbersCoverPages` | somnath.py:12-16 | Exactly as many page numbers are accepted as there are pages. Number `i + 1` selects the page at position `i`, so every page is reachable. |

## Left out

- The PDF rendering in `display_pdf_pages` (somnath.py:6-9): a pdfreader library call. The strings of `viewer.canvas.strings` are a parameter; what pdfreader puts in them is not modelled.
- The `ImportError` fallback of `display_pdf_pages` and of `extract_text_from_docx` (somnath.py:18-19, 57-59): these depend on which libraries are installed.
- The Streamlit output (`st.error`, `st.text_area`, `st.markdown` and the rest): display only. `SelectPage` returns `InvalidPageNumber` where `display_pdf_pages` calls `st.error("Invalid page number")`.
- UTF-8 decoding of the uploaded file in `check_text_duplicates` (somnath.py:37): the model starts from decoded text.
- `process_image` (somnath.py:41-49) and `extract_text_from_docx` (somnath.py:51-59): PIL and python-docx library calls.
- The upload widget and the MIME-type dispatch in `main` (somnath.py:61-88): user-interface wiring.
- AGRICULTURE.py and sowmya.py: TensorFlow prediction, an HTTP weather query, speech input and output, pdf2image, OpenCV filters, Tesseract OCR and file writes. All of these are external libraries or I/O.
- Unicode whitespace: `Words.IsSpace` is a fixed list of code points taken from CPython's whitespace table. Future Unicode versions are not tracked.
