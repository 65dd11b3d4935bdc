# pdfjoin file-size humaniser, in Dafny

pdfjoin is a small desktop tool that merges PDF files dropped onto a list.
Its list view shows each file's size in compressed form, produced by
`file_size_format(size, suffix="B")` in `src/helpers.py`. This project models
that function and proves what it promises.

The function walks the prefixes `"", "K", "M", "G", "T", "P", "E", "Z"` in
order. At each one it stops if the current value is below 1024, and otherwise
divides the value by 1024. If it passes all eight, the `for … else` branch picks
the overflow unit `"Yi"`. The text is the value with one decimal place, a space,
the unit and the suffix.

The model has two modules:

- `Helpers` (`helpers.dfy`) holds the constants, the exact scaled value
  `Scaled(size, k) = size / 1024^k` as a `real`, the recursive prefix search
  `SearchFrom`, the reading `Humanise` (value and unit index) and the text
  `Format`. `FileSizeFormat` is the loop as the source writes it, with the
  `break` and the overflow branch, and it is proved equal to `Format`. The
  lemmas state the closed form of the choice (`1024^k <= size < 1024^(k+1)`),
  the value range, monotonicity, the overflow case and the small-size case.
- `Display` (`display.dfy`) reads a displayed size back. Given the suffix, it
  recovers the rendered value and the unit index. The round-trip lemma shows
  that the layout loses nothing.

Rendering a number as text is the parameter `show: real -> string`. The model
reasons about the exact value handed to it and about the layout around it.
Sizes are whole numbers, since the only caller passes the `os.stat` byte count
(`src/app.py:57`). Ordinary negative sizes are still accepted, because the
source handles them: the first comparison already succeeds, so they are shown
unscaled.

## Model

| member | source | states |
|---|---|---|
| Helpers.SearchFrom | src/helpers.py:6-9 | The search from index j returns an index between j and 8. Every index it skips has a scaled value of at least 1024. The index it stops at below 8 has a scaled value below 1024. |
| Helpers.Humanise | src/helpers.py:6-11 | The chosen unit index k is the least index whose scaled value is below 1024, capped at 8. The reported value is the size divided by 1024 exactly k times. |
| Helpers.FileSizeFormat | src/helpers.py:4-13 | The loop makes one division per prefix passed over, breaks at the first value below 1024, and falls through to "Yi". Its text equals the rendered value, a space, the unit of the least such index, and the suffix. The suffix defaults to "B". |
| Helpers.ScaledStep | src/helpers.py:9 | One more division by 1024 of the running value gives the size over the next power of 1024. |
| Helpers.PrefixIndexCharacterised | src/helpers.py:6-9 | An index k satisfies 1024^k <= size (when k >= 1) and size < 1024^(k+1) (when k < 8) if and only if it is the index chosen. |
| Helpers.BelowBaseUnscaled | src/helpers.py:6-13 | A size below 1024, including 0 and negatives, is never divided. It is shown as the rendered size, a space, and the suffix, with the empty prefix. |
| Helpers.ValueInRange | src/helpers.py:7-9 | For a non-empty, non-overflow prefix, the reported value lies in [1, 1024). |
| Helpers.HumaniseMonotone | src/helpers.py:6-11 | A larger size never gets an earlier unit in "", K, M, G, T, P, E, Z, Yi. |
| Helpers.OverflowCase | src/helpers.py:6-11 | The loop runs to completion exactly when the size is at least 1024^8. The unit is then "Yi" and the value is the size over 1024^8. |
| Helpers.OverflowUnbounded | src/helpers.py:9-11 | In exact arithmetic, n times 1024^9 bytes reads as 1024·n with unit "Yi". So the overflow value can be 1024 or more. |
| Helpers.NonNegativeReading | src/app.py:57 | For a non-negative byte count (assumed; it is what this caller passes), the reported value is non-negative. |
| Helpers.UnitName | src/helpers.py:6-11 | Of the units "", K, M, G, T, P, E, Z, Yi, only index 0 has the empty prefix, and only the overflow index has "Yi". |
| Helpers.Format | src/helpers.py:4-13 | The text is the rendered value, one space, the unit and the suffix. The value is the size over 1024^k, where k is the one index (it exists and is unique) with 1024^k <= size (k >= 1) and size < 1024^(k+1) (k < 8). The suffix defaults to "B". |
| Display.UnitIndexOfName | src/helpers.py:6-11 | The nine units are pairwise different, so each reported unit is recognised back at its own index. |
| Display.DisplayRoundTrip | src/helpers.py:13 | If the rendered value holds no space, parsing the text with the known suffix gives back the rendered value and the chosen unit index. |

## Left out

- The `:.1f` rendering of the value (decimal rounding to one place) is not modelled. It is the parameter `show`, and the model reasons only about the exact value passed to it.
- Int-to-float rounding is not modelled. Above 2^53 bytes, Python's float division could move a value across a power of 1024. The model divides exactly.
- The rest of the repository is not part of this model. The merge routine `concatenate` in `src/joiner.py` delegates every step to the `pdfrw` library, whose behaviour is not visible here, and reading and writing PDF files is I/O. `src/app.py` is wx GUI code: the drop target, the list view, `os.stat`, date formatting with `strftime`/`localtime`, and `os.path.basename`. `run.py` is a script with hard-coded paths.
- Helpers.OverflowUnbounded: the model divides exactly, with no range limit. In the source, `size /= 1024` (src/helpers.py:9) is float division. Only the first division can raise: it divides an int by an int, and it raises `OverflowError` when the quotient exceeds the largest float (about 1.8·10^308). The seven later divisions divide a float by 1024 and never overflow. So the source reports "Yi" values only up to about 1.5·10^287, for sizes up to about 1.8·10^311, and raises an error above that. Byte counts from `os.stat` never come near it.
- Helpers.BelowBaseUnscaled: a negative size at or below about -1.8·10^308 passes the test at src/helpers.py:7 undivided. Rendering it with `:.1f` at src/helpers.py:13 converts it to a float first, which raises `OverflowError`. The model treats `show` as total, so it gives such a size a text where the source raises. Byte counts from `os.stat` are never negative.
- Helpers.FileSizeFormat: the source also accepts a float `size`. The model takes a whole number, which is what its only caller passes.
