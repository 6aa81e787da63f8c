# Requirement reader of the ML_project packaging script

The package's `setup.py` builds its dependency list with `get_requirements`:
it reads `requirements.txt` with `readlines()`, deletes every newline
character from every line (`str.replace('\n', '')`, which removes all
occurrences, not only the trailing one), and, when the exact entry `-e .`
(the `HYPEN_E_DOT` constant, pip's editable self-install marker) is among the
stripped lines, deletes its first occurrence with `list.remove`.

`setup.dfy` (module `Setup`) models that function on the sequence of lines
the file read would return:

- `StripNewlines` is `line.replace('\n', '')`; `StripAll` is the list
  comprehension over the lines.
- `RemoveFirst(s, x)` is `if x in s: s.remove(x)`: the first entry equal to
  `x` is deleted, a list without one is returned as it is.
- `Requirements(lines)` is the value `get_requirements` returns;
  `GetRequirements` is the function written as the source writes it: the list
  variable is rebound to the stripped lines, then the first position of the
  marker is searched for (as `list.remove` does) and that entry deleted. Its
  postcondition ties it to `Requirements`.
- The lemmas state what the result is: no entry holds a newline; without a
  marker every line comes back in place with only its newlines gone (blank
  lines become `""` and are kept); with a marker the result is one entry
  shorter, exactly the first line that strips to the marker is gone and the
  lines before and after it keep their order; only exact matches go (near
  matches such as `"-e . "` or `"-e .\r"` stay, every other entry keeps its
  number of occurrences); a second marker stays; with at most one marker
  none is left. A worked sequence of lines shows all of these at once
  (given as lines; read from a real file in text mode, a `-e .` line ending
  in CRLF would arrive as `-e .\n` and be removed).

## Model

| member | source | states |
|---|---|---|
| `Setup.StripNewlines` | setup.py:14 | the stripped line holds no newline; a line without one is returned unchanged |
| `Setup.StripNewlinesCounts` | setup.py:14 | every character other than a newline is kept as often as it occurs; newlines occur zero times |
| `Setup.StripNewlinesConcat` | setup.py:14 | stripping a concatenation is concatenating the stripped parts, so the surviving characters keep their order |
| `Setup.StripNewlinesLength` | setup.py:14 | the line gets shorter by exactly its number of newline characters |
| `Setup.StripTrailingNewline` | setup.py:13-14 | a line as `readlines()` gives it (text plus one trailing newline) strips to its text |
| `Setup.StripAll` | setup.py:14 | the comprehension keeps one entry per input line and no entry holds a newline |
| `Setup.RemoveFirst` | setup.py:16-17 | the guarded `list.remove`: the list is one shorter exactly when it held the value, else the same length (which entry goes is stated by `RemoveFirstShape`, `RemoveFirstAt` and `RemoveFirstCounts`) |
| `Setup.Requirements` | setup.py:6-18 | the value `get_requirements` returns: one entry per line, less one exactly when some line strips to `-e .` (which entries, and where, is stated by `RequirementsWithMarker` and `RequirementsWithoutMarker`) |
| `Setup.FirstIndex` | setup.py:17 | the position `list.remove` deletes: the entry there equals the value and no earlier entry does |
| `Setup.GetRequirements` | setup.py:6-18 | the strip-then-search-and-delete procedure returns exactly `Requirements(lines)`, the first marker removed from the stripped lines |
| `Setup.RemoveFirstAbsent` | setup.py:16 | when the value is not in the list, nothing is removed |
| `Setup.RemoveFirstAt` | setup.py:17 | with the first match at `k`, the result is the entries before `k` followed by the entries after `k` |
| `Setup.RemoveFirstShape` | setup.py:16-17 | unchanged without a match; otherwise some `k` is the first match and exactly the entry at `k` is deleted |
| `Setup.RemoveFirstCounts` | setup.py:16-17 | one occurrence of the value goes when there is one; every entry otherwise keeps its number of occurrences |
| `Setup.RequirementsHaveNoNewlines` | setup.py:14-18 | no returned requirement contains a newline character |
| `Setup.RequirementsWithoutMarker` | setup.py:14-16 | without a `-e .` line the result has one entry per line, each the line with its newlines removed, in place |
| `Setup.RequirementsWithMarker` | setup.py:14-17 | with a `-e .` line the result is one shorter: the first such line is gone, the earlier lines keep their positions and the later ones shift down by one, each with its newlines removed |
| `Setup.RequirementsKeepOtherEntries` | setup.py:14-17 | every stripped entry other than the exact string `-e .` (near matches, blank lines) occurs in the result as often as among the stripped lines |
| `Setup.RequirementsKeepLaterMarkers` | setup.py:16-17 | when a marker is present, the result holds one marker fewer, so a second marker survives |
| `Setup.RequirementsDropSingleMarker` | setup.py:16-17 | with at most one line stripping to `-e .`, no `-e .` is left in the result |
| `Setup.ExampleStripped` | setup.py:14 | a concrete sequence of lines strips to their texts, a lone newline to `""` |
| `Setup.RequirementsExample` | setup.py:4-18 | a concrete sequence of lines: the package line, `"-e . "`, `"-e .\r"` and the blank line survive, the first `-e .` goes and the second stays |

## Left out

- The file read (setup.py:12-13): opening and reading `requirements.txt` is I/O; the model takes the lines `readlines()` would return as its input. Python's universal-newline translation of `\r\n` and `\r` during that read is therefore not modelled: the lines are taken as given, which is why `"-e .\r"` can appear as an input.
- The `setup(...)` call and `find_packages()` (setup.py:20-27): calls into setuptools, a library not visible here.
- `DataIngestion.initiate_data_ingestion` (src/components/data_ingestion.py): CSV reads and writes with pandas, directory creation and the seeded split inside sklearn's `train_test_split`, whose rounding rule is not visible.
- `DataTransformation.get_data_transformer_obj` and `initiate_data_transformation` (src/components/data_transformation.py): construction and application of sklearn imputers, encoders and scalers (floating-point library behaviour), numpy concatenation and pickling of the fitted transformer.
- Logging and the `CustomException` wrapping: side effects and exception plumbing without behaviour of their own.
