# jina log-record formatters, modelled in Dafny

This project models `jina/logging/formatter.py`, the four formatters jina plugs
into Python's `logging` framework:

- **the escape-code stripper** `re.sub(r'\u001b\[.*?[@-~]', '', s)`, shared by
  PlainFormatter and JsonFormatter (`csi_strip.dfy`, module `CsiStrip`). It is
  modelled as a recursive specification `Strip` and as the left-to-right scan
  the regular-expression engine runs (`MatchAt`, `Advance`, `Sub`). The scan is proved
  equal to `Strip`. `Strip` is proved against a declarative reading of the
  pattern: a match is ESC, `[`, then a run with no newline, ending in a final
  character in `@`..`~`, and the lazy `.*?` picks the shortest such match;
- **PlainFormatter**: on a shallow copy of the record, a `str` message is
  stripped and cut to 512 characters. Any other message is left alone. The
  copy then goes to the framework's substitution;
- **JsonFormatter**: on a shallow copy, the message is turned into text with
  `str()` and stripped, whatever its type. The copy is projected onto the
  14-name allow-list `KEYS` and written with sorted keys;
- **ProfileFormatter**: a `dict` message receives `created`, `module`,
  `process`, `thread` and the current `memory` and is written with sorted keys.
  Any other message gives the empty string. The copy is shallow, so the dict
  it updates is the caller's own dict. The model keeps the dict as a heap
  object (`PyDict`), and `ProfileFormat` is a method that modifies it;
- **ColorFormatter**: the six-entry level→style `MAPPING`. The constructor
  builds one styled sub-formatter per level, and `format` looks up the
  record's level.

Files: `python_values.dfy` (record attributes, dict objects, the
`AttributeError` result), `key_order.dfy` (the key order of
`json.dumps(..., sort_keys=True)`: Python's code-point string order, and the
sorted listing of a dict), `formatter.dfy` (the four formatters) and
`formatter_client.dfy` (a caller that observes the in-place dict update).

A log record is its attribute dictionary, `map<string, Value>`. `copy(record)`
followed by `cr.msg = x` is therefore a map update, and the caller's record is
never changed by it. A dict value is a reference, so the copy still shares it.
Reading an attribute that the record lacks gives `Err(AttributeError(name))`
rather than a precondition, as Python raises it.

The docstrings of PlainFormatter and its `format` (`jina/logging/formatter.py`
lines 45 and 49) say that all control characters are removed. The code does
less, and the model follows the code:

- Stripping is not idempotent, and its output can still contain an escape
  sequence. For example, `ESC ESC [ A [ B` strips to `ESC [ B`, and stripping
  that again gives the empty string. `[` is itself a final character
  (`CsiStrip.StripNotIdempotent`).
- An unknown level in ColorFormatter gives no unstyled fallback. `.get` returns
  `None`, and calling `format` on `None` raises `AttributeError`
  (`Formatter.ColorFormatter.Format`).

## Model

| member | source | states |
|---|---|---|
| CsiStrip.FinalIndex | jina/logging/formatter.py:56 | where the lazy `.*?[@-~]` stops, if it stops: always at a character in `@`..`~` inside the string |
| CsiStrip.FinalIndexIsFirstFinal | jina/logging/formatter.py:56 | the lazy part stops at `k` exactly when `t[k]` is the first character in `@`..`~` and no newline comes before it (both directions) |
| CsiStrip.CsiMatch | jina/logging/formatter.py:56 | a match at the start of a string is at least 3 characters long, fits in the string, starts with ESC and ends with a final character |
| CsiStrip.CsiMatchIsShortest | jina/logging/formatter.py:56 | the match found is a match of the pattern, and no shorter prefix matches (laziness); when none is found, no prefix of any length matches |
| CsiStrip.Strip | jina/logging/formatter.py:56 | the stripped text is never longer than the input |
| CsiStrip.MatchAt | jina/logging/formatter.py:56 | the engine's attempt at the current position (check `ESC [`, advance the lazy run until a final character, give up at a newline or the end) returns exactly the match the pattern defines there |
| CsiStrip.Sub | jina/logging/formatter.py:56 | the left-to-right `re.sub` scan, removing each match it meets and copying every other character, returns `Strip(s)` |
| CsiStrip.Advance | jina/logging/formatter.py:56 | one scan step consumes at least one character, and the output so far plus what `Strip` gives for the rest is still `Strip` of the whole input |
| CsiStrip.StripIsSubsequence | jina/logging/formatter.py:56 | stripping only deletes characters: the result is a subsequence of the input, in order, and no longer than it |
| CsiStrip.MatchShortens | jina/logging/formatter.py:56 | if the pattern matches anywhere in the input, the result is strictly shorter |
| CsiStrip.StripUnchangedIffNoMatch | jina/logging/formatter.py:88 | the text comes back unchanged exactly when the pattern matches at no position (both directions) |
| CsiStrip.NoEscapeUnchanged | jina/logging/formatter.py:88 | a text without any ESC character comes back unchanged |
| CsiStrip.StripNotIdempotent | jina/logging/formatter.py:56 | `ESC ESC [ A [ B` strips to `ESC [ B`, which still contains a match and strips again to the empty text |
| KeyOrder.Below | jina/logging/formatter.py:90 | Python's `<` on `str`, which `sort_keys=True` uses: code point by code point, a proper prefix first; it never relates a key to itself |
| KeyOrder.BelowIsLexicographic | jina/logging/formatter.py:90 | that order is the textbook lexicographic one: `a < b` exactly when `a` is a proper prefix of `b`, or the two agree up to a position where `a` has the smaller code point (both directions) |
| KeyOrder.BelowIrreflexive | jina/logging/formatter.py:90 | Python's string order (by code point, a proper prefix first) never puts a key before itself |
| KeyOrder.BelowTransitive | jina/logging/formatter.py:90 | that order is transitive |
| KeyOrder.BelowTotal | jina/logging/formatter.py:90 | any two different keys are ordered one way or the other |
| KeyOrder.LeastKey | jina/logging/formatter.py:90 | a non-empty key set has a member below every other member |
| KeyOrder.SortedItems | jina/logging/formatter.py:89-91 | the pairs `json.dumps(sort_keys=True)` writes: keys strictly ascending, each key of the dict once with its own value, nothing else |
| KeyOrder.AscendingListingUnique | jina/logging/formatter.py:89-91 | two strictly ascending listings of the same dict are equal, so the sorted output is determined by the dict alone |
| Formatter.PlainMessage | jina/logging/formatter.py:56 | the new message is at most 512 characters long and is a prefix of the stripped text of length `min(512, stripped length)`, so truncation comes after stripping; it is a subsequence of the original message |
| Formatter.PlainCopy | jina/logging/formatter.py:54-56 | the copy has the record's attributes; only `msg` may differ, and only a `str` message is replaced (by `PlainMessage`); any other message leaves the copy equal to the record; no `msg` attribute raises `AttributeError` |
| Formatter.PlainFormat | jina/logging/formatter.py:47-57 | PlainFormatter raises `AttributeError('msg')` exactly when the record lacks `msg`; otherwise it returns the substitution of the formatter's own template into the copy, never into the original |
| Formatter.PlainMessageOfCopy | jina/logging/formatter.py:55-56 | for a `str` message, the copy's message is a `str` of at most 512 characters that keeps the original order and equals the start of the stripped text |
| Formatter.PlainMessageWithoutEscape | jina/logging/formatter.py:56 | a message with no ESC is only cut: the first 512 characters of a longer one, all of a shorter one |
| PyValues.TextOf | jina/logging/formatter.py:88 | `str()` of the message: a `str` is its own text, and any other object is rendered by its own `__str__` (the parameter `render`) |
| Formatter.JsonCopy | jina/logging/formatter.py:87-88 | the copy's `msg` is always the stripped `str()` of the message, whatever its type; every other attribute is the record's own; no `msg` raises `AttributeError` |
| Formatter.Project | jina/logging/formatter.py:90 | the projection holds exactly the allow-listed names the copy has (`KEYS ∩ attributes`), each with the copy's value |
| Formatter.JsonFormat | jina/logging/formatter.py:80-91 | JsonFormatter succeeds exactly when the record has `msg`, otherwise raises `AttributeError('msg')` |
| Formatter.JsonFormatFields | jina/logging/formatter.py:63-91 | the output keys are exactly `KEYS ∩ attributes`, strictly ascending; `msg` is the stripped text of the message; every other value is the record's |
| Formatter.JsonFormatBounded | jina/logging/formatter.py:63-78 | no attribute outside the 14-name allow-list ever appears, so the output has at most 14 pairs |
| Formatter.JsonFormatExample | jina/logging/formatter.py:80-91 | `{levelname: "INFO", msg: "hello", lineno: 42, args: …}` gives exactly `levelname`, `lineno`, `msg` in that order, with `args` dropped |
| Formatter.Attributes | jina/logging/formatter.py:109 | the comprehension over `created`, `module`, `process`, `thread` succeeds exactly when the record has all four and yields those names with the record's values; otherwise it raises `AttributeError` for the first one missing |
| Formatter.Merged | jina/logging/formatter.py:108-111 | after `update` and `msg['memory'] = …` the dict has its old keys plus the new ones; the new values win on a clash, and `memory` holds the memory reading |
| Formatter.ProfileResult | jina/logging/formatter.py:108-111 | the dict left behind, or the error: it fails exactly when the record lacks one of `created`, `module`, `process`, `thread`, and the `AttributeError` then names one the record lacks |
| PyValues.PyDict.constructor | jina/logging/formatter.py:106 | a `dict` is a heap object holding exactly the given items, so a record and its shallow copy share it |
| Formatter.ProfileMerge | jina/logging/formatter.py:106-112 | for a record with the four attributes, the merged dict has the original keys plus `created`, `module`, `process`, `thread` and `memory`; clashing keys take the record's values or the memory reading; other keys keep their values |
| Formatter.ProfileFormat | jina/logging/formatter.py:97-114 | a message that is not a dict gives exactly `""` and changes nothing; a dict message is updated in place (the caller's own dict, reached through the shallow copy) to the merged dict, and the result is its sorted listing; a missing attribute raises before anything changes |
| FormatterClient.ProfileUpdatesCallerDict | jina/logging/formatter.py:106-111 | a caller that keeps a reference to its dict message sees `created`, `module`, `process`, `thread` and `memory` in it after formatting |
| Formatter.MappingLevels | jina/logging/formatter.py:17-24 | `MAPPING` has exactly six entries: DEBUG, INFO, SUCCESS, WARNING, ERROR and CRITICAL |
| Formatter.Compile | jina/logging/formatter.py:28-31 | the per-level table has exactly the `MAPPING` levels as keys, each mapped to the whole format string wrapped in that level's style |
| Formatter.CompileSixLevels | jina/logging/formatter.py:17-31 | the table has six entries: DEBUG, INFO, SUCCESS, WARNING, ERROR and CRITICAL; INFO's style is empty, and no other level has an entry |
| Formatter.ColorFormatter.constructor | jina/logging/formatter.py:26-31 | the constructor stores the format string (the framework's default when none is given) and builds the per-level table from it |
| Formatter.ColorFormatter.Format | jina/logging/formatter.py:33-41 | `format` raises `AttributeError('format')` (`None.format`) exactly for a level outside the six `LogVerbosity` levels; for those six it returns the substitution of the record into that level's styled template |

## Left out

- `logging.Formatter.format`, the framework's template substitution (lines 41 and 57), is foreign code. It enters as the parameter `substitute`, a function of the template and the record. Its side effects on the record it is given are not modelled: it sets `message`, `asctime` and `exc_text`.
- PlainFormat, ColorFormatter.Format: the errors the substitution can raise are not modelled, because `substitute` is a total function. Examples are the `TypeError` from `msg % args` when the arguments do not fit the message, and the `ValueError` or `KeyError` for a template field the record lacks. So "returns a string" in these contracts means "does not raise `AttributeError` before the substitution".
- `colored` from `jina.helper` (lines 8 and 29) is not part of this model. A styled template is the symbolic value `Colored(fmt, style)`.
- `str()` of a message that is not a `str` (line 88) is that object's own `__str__`. It enters as the parameter `render`. For a dict message, `render` does not depend on the dict's current contents.
- `json.dumps` text (lines 89-91 and 112) is out of scope. Not modelled: string escaping, separators, float rendering of `created`, and the `TypeError` raised for values JSON cannot encode. Also not modelled: dict keys that are not strings, which the sort cannot compare. The output is modelled as the sorted key/value listing.
- `used_memory` (lines 104 and 111) reads process memory from the operating system. The reading is the parameter `memory`. A failing import of `.profile` is not modelled.
- `LogVerbosity` (line 7) is defined elsewhere, so its numeric values are not part of this model. Levels are the datatype `Level`: the six members plus `Custom(levelno)`. `Custom` stands only for a `levelno` that is none of the six `LogVerbosity` values; the six are always written as their own constructors. `ColorFormatter.Format` takes the record's level as a `Level` instead of reading `levelno` from the record.
- ColorFormatter's constructor keyword arguments other than `fmt` are not modelled (`datefmt`, `style`, `validate`). The per-level sub-formatters do not receive them either. `fmt = ""` stands for "no format string given".
- Python `str` subclasses are not modelled. `hasattr` on class-level attributes or properties is not modelled either: none of the 14 names is one on `LogRecord`, so the record is its instance dictionary.
- Concurrent `format` calls and thread safety are out of scope.
