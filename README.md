# text-buffer in Dafny

`text-buffer.rb` holds two classes and a script. `Buffer` is a text container
with insertion and deletion of arbitrary parts; its text is one Ruby
`String`, readable through `attr_reader :text`. `ArrayBuffer` is meant as an
array-backed variant but is an empty placeholder. The script builds one
`Buffer` from "The quick brown fox jumped over the lazy dog", makes six
edit calls on it, and compares its text with an expected string five times.

Both `Buffer` edits are one Ruby string index assignment:

- `insert(string, position)` runs `@text[position - 1] = string`;
- `delete(start, length)` runs `@text[start, length] = ''`.

Ruby treats both forms as one splice: replace the `len` characters from index
`beg` with the new string, where `len` is 1 for the one-index form. A
negative `beg` counts from the end. A `len` that runs past the end is cut at
the end. A negative `len`, or a `beg` outside `-n..n` for a text of `n`
characters, raises IndexError before the text is touched. The module
`RubyString` defines this splice once, as `Spliced`. The module `TextBuffer`
builds the buffer on top of it.

The edits therefore behave as written, not as their names suggest:

- `insert` **overwrites**. The single character at 0-based index
  `position - 1` is replaced by `string`, and nothing after it shifts. At
  `position == |text| + 1` it appends. At an in-range position, inserting
  the empty string deletes a character; at `|text| + 1` it changes nothing.
- `delete` counts `start` **from 0**, while `insert` counts `position` from 1.
- An out-of-range index raises IndexError; it is not clamped. A length
  within a machine long that runs past the end is clamped: delete's explicit
  `length`, and insert's implicit length of 1. That clamp is why insert at `|text| + 1` removes
  nothing and appends.

In the model, `Buffer` is a class with a `text: string` field. Its `Insert`
and `Delete` methods state the new text in terms of the old one. A raised
IndexError is modelled as a returned `Raised(e)`, with the text unchanged. On
success the method returns what the Ruby method returns: the assigned string.
`ArrayBuffer` is a class whose `text` (a sequence of strings, standing for
the Ruby Array) is empty after construction and never changes.

`Script` replays lines 66-86 on a `Buffer` object. The first three texts are
the ones the script expects. The fourth is "Tpeedy quick brown fox jumped
over the dogs", not the expected "speedy quick brown fox jumped over the dogs"
(line 80), because `delete(1, 4)` starts at index 1. The fifth is "A eedy
quick brown fox jumped over the dogs", not the expected "A speedy quick brown
fox jumped over the dogs" (line 86), because both inserts overwrite. The TODO
at lines 82-83 says the same. The scripted texts are written as
`"The speedy " + Middle + "lazy dog"` and so on, where `Middle` is
"quick brown fox jumped over the ". Each step is also proved as a lemma for
any middle part of that length.

`Run` applies a list of calls (`Edit` values) to a text, in order. It stops at
the first IndexError, as the script would. `ScriptRun` shows that `Run` of the
script's six calls ends in the same text as the object-based `Script`.

The TODO at lines 82-83 and the expectations at lines 80 and 86 show that
the authors intended a shifting insertion and a delete counted from 1. The
code does neither, and this model follows the code.

## Model

| member | source | states |
|---|---|---|
| `RubyString.Spliced` | text-buffer.rb:12-18 | The splice raises IndexError exactly when the length is negative or the index lies outside `-n..n`. A negative length is reported first. On success the new length is `n` minus the removed count (the length, cut at the end) plus the length of the new string. |
| `RubyString.SplicedAt` | text-buffer.rb:12-18 | Character by character, a successful splice keeps the text before the offset, then has the new string, then the rest of the text after the removed characters. |
| `TextBuffer.InsertText` | text-buffer.rb:12-14 | `insert` raises IndexError (index out of string) exactly when `position - 1` lies outside `-n..n`. |
| `TextBuffer.DeleteText` | text-buffer.rb:16-18 | `delete` raises IndexError exactly when `length < 0` (negative length) or `start` lies outside `-n..n` (index out of string). |
| `TextBuffer.InsertOverwrites` | text-buffer.rb:12-14 | For `1 <= position <= n` the text becomes `t[..position-1] + s + t[position..]`, of length `n + |s| - 1`. |
| `TextBuffer.InsertAtEndAppends` | text-buffer.rb:13 | `insert(s, n + 1)` makes the text `t + s`, of length `n + |s|`. |
| `TextBuffer.InsertFromEnd` | text-buffer.rb:13 | A position `p` from `1 - n` to `0` overwrites the character at `n + p - 1`, counted from the end. |
| `TextBuffer.InsertCharReplaces` | text-buffer.rb:82-85 | A one-character insert at an in-range position is the sequence update `t[position-1 := c]`. The length is kept and only that index changes. |
| `TextBuffer.InsertEmptyDeletes` | text-buffer.rb:12-18 | `insert("", p)` behaves exactly like `delete(p - 1, 1)`, error cases included. |
| `TextBuffer.InsertAt` | text-buffer.rb:13 | Character by character, an insert at `1 <= position <= n + 1` keeps indices below `position - 1`, then has `s`, then `t` from `position` on. |
| `TextBuffer.DeleteSlice` | text-buffer.rb:16-18 | For `0 <= start <= n` and `length >= 0` the text becomes `t[..start] + t[min(start + length, n)..]`, of length `n - min(length, n - start)`. |
| `TextBuffer.DeleteNoOp` | text-buffer.rb:17 | `delete(start, 0)` at any in-string start leaves the text unchanged, and so does `delete(n, length)` for any `length >= 0`. |
| `TextBuffer.DeleteToEnd` | text-buffer.rb:17 | A length that reaches or overruns the end leaves `t[..start]`, and `delete(0, n)` empties the text. |
| `TextBuffer.DeleteAt` | text-buffer.rb:17 | Character by character, delete keeps indices below `start` and shifts the rest left by the removed count. |
| `TextBuffer.InsertReplacesCharAfter` | text-buffer.rb:13 | In `head + [c] + tail`, inserting `s` at position `|head| + 1` gives `head + s + tail`. |
| `TextBuffer.DeleteRemovesInfix` | text-buffer.rb:17 | In `head + middle + tail`, `delete(|head|, |middle|)` gives `head + tail`. |
| `TextBuffer.InsertKeepingCharThenDeleteRestores` | text-buffer.rb:12-18 | Inserting the overwritten character followed by `s` is a shifting insertion after index `position - 1`. Deleting `|s|` characters from the 0-based index `position` then restores the text. |
| `TextBuffer.DeleteThenInsertRestores` | text-buffer.rb:12-18 | After `delete(start, length)` with `start >= 1`, inserting at position `start` the character before the range followed by the removed characters restores the text. |
| `TextBuffer.RunConcat` | text-buffer.rb:68-86 | `Run` (with `Step` for one call) makes a list of calls on a text in order, and an IndexError ends it, as it would end the script. Making the calls of one list and then those of another on the same buffer equals making the calls of their concatenation. A raised error ends the run. |
| `TextBuffer.CharOverwritesKeepLength` | text-buffer.rb:82-86 | A run of one-character inserts at positions `1..n` never raises and keeps the length. Each index that no insert targets keeps its character. The last insert's character is at its index afterwards. |
| `TextBuffer.Buffer.constructor` | text-buffer.rb:8-10 | The buffer's text is the given text. |
| `TextBuffer.Buffer.Insert` | text-buffer.rb:12-14 | On success the text becomes `InsertText`'s result and the method returns the inserted string. On IndexError the text is unchanged and the error is returned. The in-range overwrite and the append at `n + 1` are also stated directly. |
| `TextBuffer.Buffer.Delete` | text-buffer.rb:16-18 | On success the text becomes `DeleteText`'s result and the method returns `""`. On IndexError the text is unchanged and the error is returned. For in-range arguments the clamped slice is also stated directly. |
| `TextBuffer.ArrayBuffer.constructor` | text-buffer.rb:27-29 | Whatever text it is given, the text after construction is the empty array. |
| `TextBuffer.ArrayBuffer.Insert` | text-buffer.rb:31-33 | The text is unchanged. |
| `TextBuffer.ArrayBuffer.Delete` | text-buffer.rb:35-37 | The text is unchanged. |
| `TextBuffer.SpeedyStep` | text-buffer.rb:70-71 | `insert(" speedy ", 4)` on the original text gives "The speedy quick brown fox jumped over the lazy dog". |
| `TextBuffer.LazyStep` | text-buffer.rb:73-74 | `delete(43, 5)` then gives "The speedy quick brown fox jumped over the dog". |
| `TextBuffer.DogsStep` | text-buffer.rb:76-77 | `insert("s", 47)` then appends, giving "... the dogs". |
| `TextBuffer.HeadStep` | text-buffer.rb:79-80 | `delete(1, 4)` then gives "Tpeedy quick brown fox jumped over the dogs". |
| `TextBuffer.CapitalStep` | text-buffer.rb:84 | `insert("A", 1)` then gives "Apeedy quick brown fox jumped over the dogs". |
| `TextBuffer.SpaceStep` | text-buffer.rb:85-86 | `insert(" ", 2)` then gives "A eedy quick brown fox jumped over the dogs". |
| `TextBuffer.ExpectationsUnmet` | text-buffer.rb:79-86 | The text after `delete(1, 4)` differs from the expectation at line 80. The text after the two one-character inserts differs from the expectation at line 86. |
| `TextBuffer.ScriptRun` | text-buffer.rb:66-86 | The script's first three calls, applied with `Run` to the original text, end in the line-77 text "The speedy quick brown fox jumped over the dogs". All six calls end in "A eedy quick brown fox jumped over the dogs". The proof joins the two halves with `RunConcat`. |
| `TextBuffer.Script` | text-buffer.rb:66-86 | Running the script on a `Buffer` object gives exactly the five texts above. The line 80 and line 86 expectations are provably not met. The final text equals `Run` of the script's six calls on the original text. |

## Left out

- The assertion helpers (`Result` struct, `assert`, `assert_equal`, lines 40-62) only build printable messages, so they are not modelled. `Script` returns the texts the script reads back instead.
- The loop that prints failed assertions and the final message (lines 114-120) is console output.
- The commented-out lines 88-112 are not code. They are a further `Buffer` scenario and an `ArrayBuffer` script whose expectations no code meets.
- Object identity is not modelled. `Buffer.new` keeps the caller's String object, and `text` hands that same object out, so in Ruby `original_text` is edited along with the buffer. Here the text is a value.
- Non-Integer and non-String arguments are not modelled; the signatures fix the types. Ruby truncates a Float index (`insert('X', 4.5)` overwrites index 3). For most other objects it raises: NoMethodError from `position - 1`, or TypeError. A Regexp `start` makes `delete` replace a match group instead of a range.
- DeleteText, Buffer.Delete, InsertText, Buffer.Insert, RubyString.Spliced: an Integer `start`, `length` or `position - 1` that does not fit a machine long (-2^63..2^63-1) makes Ruby raise RangeError before any IndexError check. The model has no RangeError: it clamps such a `length` (so `delete(0, 2**63)` succeeds), reports a `length` below -2^63 as NegativeLength, and reports such an index as IndexOutOfString.
- Characters are Dafny `char`s. Ruby counts characters in the string's encoding. Encodings, encoding-compatibility errors and frozen string literals are not modelled.
- Ruby's return values of `ArrayBuffer#insert` and `#delete` (`nil`) are not modelled. They have no outputs.
