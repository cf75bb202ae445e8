# A verified model of the MiniLM chatbot's knowledge loader and reply rule

`chatbot.py` is a console chatbot. At startup it reads a knowledge file of
`question|answer` lines with `load_knowledge`. It embeds every question with a
sentence-embedding model and puts the vectors into a FAISS L2 index. On each
turn it lower-cases the user's line, stops on `exit`, and otherwise looks up
the nearest stored question. It prints that question's answer when the
distance is at most 1.0 and an apology otherwise.

This project models the two parts with logic of their own:

- `knowledge.dfy` (module `Knowledge`): `load_knowledge` as a pure function
  `Load` over the file's lines, the same loop written imperatively as the
  method `LoadKnowledge` (proved equal to `Load`), and lemmas about what
  loading accepts, rejects and produces.
- `chat.dfy` (module `Chat`): the per-turn decision `Respond`, which returns
  `Exit`, `Fallback` or `Answer(text)`. The embedding model and the search
  are abstract: their top-1 result `(distance, index)` is an input.
- `pystr.dfy` (module `PyStr`): the Python string operations the two use
  (`strip`, `lower`, `split("|")` and `in`), over a fixed ASCII alphabet.
  It also defines `Count` and `Join`. chatbot.py does not call them; they
  are there to state what `split` computes.

What the code does, in the cases that matter:

- A line with two or more `|` makes `q, a = line.strip().split("|")` raise
  `ValueError`, so loading fails (`Knowledge.LoadError.TooManyValues`).
- The threshold is 1.0, and a distance of exactly 1.0 still answers.
- A question is stripped and lower-cased. An answer is stripped.
- A file with no `|` line loads as two empty lists. The line `|` gives an
  empty question and an empty answer.

Lines are given with their terminators, as `for line in f` yields them. The
terminators are whitespace and `strip` removes them.

## Model

| member | source | states |
|---|---|---|
| `PyStr.Strip` | chatbot.py:16-18 | the stripped text has no whitespace at either end |
| `PyStr.TrimLeftSuffix` | chatbot.py:16 | left stripping keeps a suffix of the text and removes only whitespace |
| `PyStr.TrimRightPrefix` | chatbot.py:16 | right stripping keeps a prefix of the text and removes only whitespace |
| `PyStr.StripBounds` | chatbot.py:16-18 | `strip` keeps one contiguous slice of its input, and everything outside it is whitespace |
| `PyStr.StripPrependSpaces` | chatbot.py:17 | leading whitespace does not change the stripped text |
| `PyStr.StripAppendSpaces` | chatbot.py:18 | trailing whitespace, such as the line terminator, does not change the stripped text |
| `PyStr.StripCount` | chatbot.py:15-16 | stripping keeps every `|`, so the stripped line has as many separators as the raw line |
| `PyStr.Lower` | chatbot.py:17 | lower-casing keeps the length, leaves no upper-case letter, shifts upper-case ASCII letters by 32 and keeps every other character |
| `PyStr.LowerKeeps` | chatbot.py:17 | lower-casing changes neither whether the text is stripped nor whether it contains `|` |
| `PyStr.Split` | chatbot.py:16 | `split("|")` gives one more piece than there are separators, and no piece contains `|` |
| `PyStr.JoinSplit` | chatbot.py:16 | joining the pieces of a split with `|` gives back the split text |
| `PyStr.SplitJoin` | chatbot.py:16 | splitting the `|`-join of bar-free pieces gives back the pieces |
| `Knowledge.ParseLine` | chatbot.py:15-18 | a failing unpack of a line always has too many values (three or more pieces), never too few; which lines are skipped, parsed or rejected is `ParseLineCases`, and what a parsed line yields is `ParseLineFields` |
| `Knowledge.ParseLineCases` | chatbot.py:15-16 | a line is skipped iff it has no `|`, becomes an entry iff it has exactly one, and fails to unpack iff it has two or more; the failing split has separators + 1 >= 3 pieces |
| `Knowledge.SplitOneBar` | chatbot.py:16-18 | a line with one `|` splits into exactly two pieces, whose stripped forms are the stripped text on either side of the `|` |
| `Knowledge.ParseLineFields` | chatbot.py:15-18 | with its only `|` at position p, a line yields the lower-cased, stripped text before p as question and the stripped text after p, case kept, as answer |
| `Knowledge.ParseLineWellFormed` | chatbot.py:16-18 | a parsed question is stripped, lower-case and bar-free; a parsed answer is stripped and bar-free |
| `Knowledge.ParseLineRender` | chatbot.py:15-18 | the line `q|a` plus a whitespace terminator parses back to the entry `(q, a)` when the entry is well-formed |
| `Knowledge.Load` | chatbot.py:9-20 | on success the question and answer lists have the same length |
| `Knowledge.LoadKnowledge` | chatbot.py:9-20 | the append loop over the lines returns exactly what `Load` specifies, including the error from the first line that cannot be unpacked |
| `Knowledge.LoadErrSticks` | chatbot.py:14-16 | once a prefix of the file fails to load, the whole file fails with the same error |
| `Knowledge.LoadOkIff` | chatbot.py:14-16 | loading succeeds iff no line contains two or more `|` |
| `Knowledge.LoadErrFirst` | chatbot.py:14-16 | a failure names the first line with two or more `|` and the number of pieces it splits into |
| `Knowledge.LoadEntries` | chatbot.py:14-18 | on success there is one entry per line containing `|`, and the k-th entry is what the k-th such line parses into |
| `Knowledge.LoadWellFormed` | chatbot.py:16-18 | every loaded question is stripped, lower-case and bar-free; every loaded answer is stripped and bar-free |
| `Knowledge.LoadSameBarLines` | chatbot.py:14-18 | two files with the same `|` lines that both load give the same lists |
| `Knowledge.LoadIgnoresPlainLine` | chatbot.py:15 | inserting a line without `|` anywhere changes neither whether loading succeeds nor what it loads |
| `Knowledge.LoadRender` | chatbot.py:14-20 | a file of `q|a` lines written from well-formed entries loads back as exactly those entries, in order |
| `Knowledge.LoadRenderLoad` | chatbot.py:9-20 | writing out what was loaded and loading it again gives the same result |
| `Knowledge.LoadSingleLine` | chatbot.py:15-18 | the one-line file `q|a`, with or without a whitespace terminator, with q lower-case and both sides stripped and bar-free, loads as `([q], [a])` |
| `Chat.Respond` | chatbot.py:36-50 | an answer given is one of the stored answers |
| `Chat.ExitIff` | chatbot.py:36-40 | the session ends iff the input is one of the 16 case variants of `exit`, with nothing around it |
| `Chat.ThresholdDecides` | chatbot.py:46-50 | for any other input the reply is the apology iff the distance exceeds 1.0, and otherwise the stored answer at the found index |
| `Chat.AtThresholdAnswers` | chatbot.py:46-50 | a distance of exactly 1.0 still gives the stored answer |
| `Chat.FallbackMonotone` | chatbot.py:46-47 | if a distance gives the apology, every larger distance does too |
| `Chat.AnswerIsStored` | chatbot.py:49-50 | an answer is given only for a non-exit input with distance at most 1.0 and a valid index, and it is the stored answer at that index |
| `Chat.ExampleFileLoads` | chatbot.py:9-20 | the one-line file `how are you|I am fine, thanks!` plus a newline loads as that single entry |
| `Chat.ExactQuestionAnswered` | chatbot.py:9-50 | loading `how are you|I am fine, thanks!` and asking `How are you` with a hit at distance 0 prints `I am fine, thanks!` |

## Left out

- The sentence-embedding model (`SentenceTransformer`, `model.encode`): a foreign neural model with floating-point output.
- The FAISS index build and `index.search`: a foreign floating-point nearest-neighbour search. Only its top-1 `(distance, index)` enters `Chat.Respond`, as an input.
- Opening the file and decoding UTF-8: the model starts from the file's lines. A missing or unreadable file is not modelled.
- Console `input` and `print`, the text of the printed messages, and the endless `while True` loop: I/O plumbing. Each turn of the loop is `Chat.Respond`.
- What happens after loading an empty knowledge file (embedding an empty list, an empty index): it lies inside the foreign libraries.
- PyStr.Lower: lower-cases ASCII letters only. Python's `str.lower` also maps non-ASCII letters, which cannot be reproduced faithfully.
- PyStr.Strip: removes only the ASCII whitespace that `str.isspace` accepts (tab, line feed, vertical tab, form feed, carriage return, U+001C..U+001F, space). Python also strips non-ASCII whitespace such as U+0085 and U+00A0.
- Chat.Respond: requires a valid index whenever the input is not `exit` and the distance is at most 1.0. The search is assumed to provide it. Python's negative indexing is not modelled.
