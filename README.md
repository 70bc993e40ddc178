# Moon position formatter: a Dafny model

The server computes the Moon's right ascension (hours) and declination
(degrees), turns them into sexagesimal text and pushes one text frame per
tick to every connected websocket client. This project models the
deterministic part of that: `format_ra_dec` in `main.py` and the frame
`RA: <ra_str>, DEC: <dec_str>` built from its result. It then proves the
exact output rules:

- fields are truncated, never rounded;
- minutes and seconds always lie in 0..59;
- `:02` zero-pads to two digits;
- the declination's sign comes from `dec >= 0` and its fields from `abs(dec)`;
- every in-range position gives a 31-character frame whose fields can be read back.

Files:

- `wrappers.dfy`: the `Option` type used by the decoders.
- `decimal_text.dfy` (module `DecimalText`): decimal digits, Python's `02`
  integer format (`ZeroPad2`) and its decoders, with round-trip lemmas.
- `moon_format.dfy` (module `MoonFormat`):
  - Python's `int()`, `% 1` and `abs()` on floats;
  - the three sexagesimal fields;
  - the RA and DEC renderings and their decoders (`ParseRa`, `ParseDec`);
  - `format_ra_dec`, the message frame and its decoder `ParseMessage`.

Python floats are modelled as mathematical reals. `int(x)` is `Trunc`
(toward zero). `x % 1` is `Frac` (floored, so always in [0, 1)).
`f"{n:02}"` is `ZeroPad2`: minimum width two, zero fill after the sign,
no truncation of wider values. The formatter has no precondition, like the
Python function. For a negative right ascension it follows the code: the
hours field is truncated toward zero, the minute and second fields come
from floored fractional parts, and a negative hours value prints as `-d`
or `-dd…`. The layout and round-trip lemmas take the range they need:
`0 <= ra < 100` (which covers the produced range `[0, 24)`) and
`-100 < dec < 100` (which covers `[-90, 90]`). `ToSexagesimal` and
`FormatRa` also state the exact range in which the fields and the RA text
keep their two-digit width.

## Model

| member | source | states |
|---|---|---|
| DecimalText.Digits | main.py:32 | the decimal text of a non-negative field: at least one digit, all digits, a leading zero only for 0, one character exactly below 10, two exactly in 10..99 |
| DecimalText.ParseDigitsOfDigits | main.py:32 | decoding the decimal text of any `n` gives `n` back |
| DecimalText.ZeroPad2 | main.py:32-33 | `:02` always yields at least two characters, exactly two iff -10 < n < 100; below 10 a non-negative value is `'0'` followed by its digit, from 10 up a value is its plain digits, and a negative value is `-` followed by digits |
| DecimalText.ParseInt | main.py:32-33 | reads a signed decimal integer; text without a leading `-` reads as a non-negative value |
| DecimalText.ParseIntOfZeroPad2 | main.py:32-33 | decoding the `:02` rendering of any integer gives the integer back, so the rendering is injective |
| DecimalText.TwoDigitField | main.py:32-33 | a value in 0..99 renders as exactly two digits that decode to that value |
| DecimalText.ZeroPad2OfTwoDigits | main.py:32-33 | every pair of digits is the `:02` rendering of the value it denotes (below 100), so two-digit texts and values 0..99 correspond one to one |
| MoonFormat.Frac | main.py:32 | `x % 1` lies in [0, 1) and differs from `x` by an integer |
| MoonFormat.Trunc | main.py:32 | `int(x)` is the integer next to `x` on the side of zero, less than 1 away |
| MoonFormat.Abs | main.py:33 | `abs(dec)` is non-negative and equals `dec` or `-dec` |
| MoonFormat.ToSexagesimal | main.py:32 | minutes and seconds always lie in 0..59; for `x >= 0` the units field is `floor(x)`; units are negative exactly when `x <= -1`; units lie in -9..99 exactly when `-10 < x < 100` |
| MoonFormat.TruncatesToWholeSeconds | main.py:32 | for `x >= 0`, `3600*units + 60*minutes + seconds == floor(3600*x)`: the fields from two different fractional parts agree and are `x` truncated to whole seconds |
| MoonFormat.NeverRoundsUp | main.py:32 | for `x >= 0` the value the fields denote is at most `x` and less than one second below it |
| MoonFormat.FormatRa | main.py:32 | `ra_str` is exactly 8 characters iff `-10 < ra < 100`, with `:` at indices 2 and 5 in that range |
| MoonFormat.ParseRa | main.py:32 | the decoder of `DD:DD:DD` accepts exactly that shape and yields fields of at most two digits |
| MoonFormat.ParseRenderRa | main.py:32 | rendering fields within 0..99 gives a `DD:DD:DD` text that decodes to the same fields |
| MoonFormat.RenderParseRa | main.py:32 | every `DD:DD:DD` text is the rendering of the fields it decodes to |
| MoonFormat.FormatRaRoundTrip | main.py:32 | for `0 <= ra < 100` (so for every ra in [0, 24)) `ra_str` has the form `DD:DD:DD` and decodes to the truncated fields, hours `floor(ra)` |
| MoonFormat.TruncationExample | main.py:32 | `ra = 1.999999` renders as `01:59:59`, not `02:00:00` |
| MoonFormat.FormatDec | main.py:33 | the first character is `+` iff `dec >= 0` and `-` iff `dec < 0`; `dec_str` is exactly 12 characters iff `-100 < dec < 100` |
| MoonFormat.ParseDec | main.py:33 | the decoder of `±DD° DD' DD"` accepts exactly that shape, reads the sign from the first character and yields fields of at most two digits |
| MoonFormat.ParseRenderDec | main.py:33 | rendering a sign and fields within 0..99 gives a declination text that decodes to the same sign and fields |
| MoonFormat.RenderParseDec | main.py:33 | every declination text is the rendering of the sign and fields it decodes to |
| MoonFormat.FormatDecRoundTrip | main.py:33 | for `-100 < dec < 100` `dec_str` has the form `±DD° DD' DD"` and decodes to the sign `dec < 0` and the truncated fields of `abs(dec)` |
| MoonFormat.DecMirror | main.py:33 | for `dec > 0`, `dec` and `-dec` render with `+` and `-` and are identical after the first character |
| MoonFormat.SignExamples | main.py:33 | `-0.0001` renders as `-00° 00' 00"` and `0.0` as `+00° 00' 00"` |
| MoonFormat.FormatRaDec | main.py:31-34 | for `0 <= ra < 24` the first string is `DD:DD:DD`; for `-90 <= dec <= 90` the second is `±DD° DD' DD"` |
| MoonFormat.Message | main.py:42 | the frame is `RA: `, then `ra_str`, then `, DEC: `, then `dec_str`, each at the position its predecessors' lengths fix, and nothing else |
| MoonFormat.MoonMessage | main.py:39-42 | for an in-range position the frame matches the wire frame shape `RA: DD:DD:DD, DEC: ±DD° DD' DD"` |
| MoonFormat.MessageRoundTrip | main.py:40-42 | for an in-range position the frame is 31 characters, holds `ra_str` at 4..12 and `dec_str` at 19..31, and decodes to the truncated fields and the declination's sign |
| MoonFormat.ParseMessage | main.py:42 | the frame decoder accepts exactly the wire frame shape and yields fields of at most two digits |
| MoonFormat.ParseRenderMessage | main.py:42 | rendering a reading with two-digit fields gives a wire frame that decodes to that reading |
| MoonFormat.RenderParseMessage | main.py:42 | every wire frame is the rendering of the reading it decodes to |
| MoonFormat.WireFrameExample | main.py:42 | the frame `RA: 14:32:07, DEC: -03° 21' 45"` decodes to 14h 32m 07s and a negative declination of 3° 21' 45" |

## Left out

- `calculate_moon_ra_dec` (main.py:6-29): floating-point trigonometry on the wall clock (`datetime.utcnow()`). The model takes `ra` and `dec` as inputs, and the frame lemmas assume the range this function produces (`0 <= ra < 24`, `-90 <= dec <= 90`).
- `send_moon_coordinates` (main.py:36-48): the per-connection `while True` loop, `websocket.send`, `asyncio.sleep(10)` and the `ConnectionClosed` handler are I/O and cooperative concurrency. Only the frame built in its body is modelled (`MoonMessage`). Each connection runs its own loop; the code keeps no subscriber registry, so none is modelled.
- `run` and the `__main__` entry point (main.py:50-56): server setup and process start.
- The `print` calls (main.py:43, 48, 52): logging.
- IEEE-754 effects: a float fractional part that computes to just below 1, `-0.0 >= 0` printing `+`, rounding in `* 60`, and NaN or infinite inputs. All arithmetic is over exact reals.
- UTF-8 encoding of the frame: texts are sequences of characters, and `°` is one character.
