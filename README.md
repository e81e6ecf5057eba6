# String utilities and shader-name handling of a minimal SDL/Vulkan renderer

This project is a Dafny model of the small amount of self-contained logic in the
renderer's sources:

- `Uint32ToBinary` (utility.cpp) writes a 32-bit unsigned integer into a fresh
  33-character buffer as '0'/'1' digits, most significant bit first, then a NUL.
- `StringContains` (utility.cpp) is a single-pass substring matcher. It keeps a
  running match length `targetIndex`. On a mismatch it does not backtrack: it
  restarts with 1 or 0 characters matched, depending on whether the current
  character equals the target's first. The model reproduces exactly this
  behaviour. It proves three things about it:
  - the matcher is sound;
  - it is exact whenever the target's first character does not recur in the
    target;
  - it is not complete in general: it misses "aab" in "aaab".
- `LoadShaders` (common.cpp) has two parts that are modelled. It classifies a
  file name as a vertex or fragment shader by two `StringContains` calls. It
  builds the path `"shaders/" + name` with `malloc`, `strcpy` and `strcat`.

Modules:

- `CStr` (cstring.dfy). A C string is a `seq<char>` without NUL (`CString`).
  Reading index `|s|` gives the terminator (`At`). A malloc'd buffer is an
  `array<char>`. `StrLen`, `StrCpy` and `StrCat` model the libc routines. A copy
  that would write past the end of its buffer is not performed. It reports
  `false` and leaves the buffer unchanged, so an overrun becomes an observable
  error instead of undefined behaviour.
- `Utility` (utility.dfy).
  - `Uint32ToBinary` is specified by `ToBinary`, with its inverse `FromBinary`
    and the round-trip lemmas.
  - `StringContains` is specified by the step functions `Completes` and
    `NextIndex` and the scan function `MatchFrom`/`Matches`. `Occurs` is the
    reference definition of containment it is compared against.
- `Common` (common.dfy). It holds the stage classification (`StageOf`,
  `ClassifyStage`), the path construction (`JoinInBuffer`), `LoadShaders` as
  written, and `LoadShadersCorrected`.

`Uint32` is a `nat` below 2^32. The source's `num & 1` and `num >>= 1` are
`n % 2` and `n / 2`, which agree with the bit operations for unsigned values.
Bit k of n (`BitSet`) is the low bit of n after k such shifts (`Shr`).

The C strings `"shaders/"` and the file name are values of type `CString`, so
the two `strlen` calls at common.cpp:25-26 are their lengths `|s|`.
`CStr.StrLen` is the `strlen` scan over a buffer. It is used inside `strcat`
and to read the finished path back out of its buffer.

The renderer's device, swapchain and pipeline setup is not implemented in any
of the source files modelled here. It is not part of this model. main.cpp:
- creates the SDL GPU device;
- queries the supported shader formats (main.cpp:51);
- calls `LoadShaders` and logs `Uint32ToBinary` of those formats (main.cpp:53-55);
- creates the window and renderer (main.cpp:62);
- runs the per-frame clear loop.

Its call to `LoadShaders` passes three arguments, which matches the
declaration in common.h rather than the one-parameter definition in
common.cpp. The model follows the definition.

## Model

| member | source | states |
|---|---|---|
| `Utility.ToBinary` | utility.cpp:11-19 | the rendered numeral has exactly `width` characters, each '0' or '1' |
| `Utility.ToBinaryAt` | utility.cpp:11-19 | the character at index i is '1' iff bit (width-1-i) of n, that is `(n >> (width-1-i)) & 1`, is set, so the most significant bit comes first |
| `Utility.ShrSucc` | utility.cpp:18 | one more `num >>= 1` halves the shifted value, which is the step the loop takes between digits |
| `Utility.FromToBinary` | utility.cpp:7-22 | for any n below 2^width, reading the width-digit numeral back as base 2 gives n |
| `Utility.ToFromBinary` | utility.cpp:7-22 | every '0'/'1' string is the numeral of its own value, so the rendering is onto the binary strings of that length |
| `Utility.Uint32RoundTrip` | utility.cpp:7-22 | the 32 digits read back as base 2 give the original 32-bit `num` |
| `Utility.Uint32ToBinary` | utility.cpp:7-22 | returns a fresh 33-character buffer with NUL at index 32 whose first 32 characters are `ToBinary(num, 32)`; the loop fills index 31 down to 0 from the shifted value |
| `Utility.ScanStep` | utility.cpp:61-71 | a scan step that does not return keeps the loop invariant: `targetIndex < targetLength` (or 0 for an empty target), and the `targetIndex` characters before the next index equal the target's first `targetIndex` characters |
| `Utility.CompletesOccurs` | utility.cpp:63-66 | when the match completes at index i, the target occurs in the search string ending at i |
| `Utility.MatchesSound` | utility.cpp:56-73 | a true answer implies the target occurs contiguously in the search string |
| `Utility.EmptyTargetNeverMatches` | utility.cpp:59-70 | an empty target is never found, because its first character is the terminator |
| `Utility.MatchesExact` | utility.cpp:56-73 | if the target is non-empty and its first character does not recur in it, the answer is true iff the target occurs |
| `Utility.IncompleteAfterPartialMismatch` | utility.cpp:69-71 | "aab" occurs in "aaab" at index 1, yet the matcher answers false, because a mismatch restarts only at the current character |
| `Utility.VertProbe` | common.cpp:10-11 | the probe `StringContains("vejvtyveverto", "vert")` is true |
| `Utility.StringContains` | utility.cpp:56-73 | the loop with its early return computes `Matches`, and a true result comes with an index where the target occurs |
| `CStr.StrLen` | common.cpp:30 | the strlen scan (the one inside strcat, and the one that reads the path back) returns the index of the buffer's first NUL |
| `CStr.StrCpy` | common.cpp:29 | strcpy succeeds iff `|src| + 1` characters fit; the buffer then holds `src` and the rest is unchanged; otherwise nothing is written |
| `CStr.StrCat` | common.cpp:30 | strcat succeeds iff the old length plus `|src| + 1` fits; the buffer then holds the old string followed by `src`, and the bytes after the new terminator are unchanged; otherwise nothing is written |
| `Common.MatchesKeywords` | common.cpp:17-22 | for the keywords "vert" and "frag" the matcher answers exactly whether the keyword occurs in the name |
| `Common.StageOfVertex` | common.cpp:17-18 | the vertex stage is chosen iff the name contains "vert"; the "vert" test comes first, so a name containing both is vertex |
| `Common.StageOfFragment` | common.cpp:20-21 | the fragment stage is chosen iff the name contains "frag" and not "vert" |
| `Common.StageOfNone` | common.cpp:8-22 | no stage is assigned iff the name contains neither keyword |
| `Common.ClassifyStage` | common.cpp:17-22 | the two StringContains calls, asking for "frag" only when "vert" is not found, yield `StageOf(name)` |
| `Common.JoinInBuffer` | common.cpp:24-30 | malloc, strcpy and strcat succeed iff `|dir| + |name| + 1 <= capacity`, and the buffer then holds `dir + name`; otherwise the result names the copy that overruns |
| `Common.LoadShaders` | common.cpp:7-30 | as written: the stage is `StageOf(name)`, and the `dirLength + nameLength` buffer is always overrun, by strcpy for an empty name and by strcat otherwise |
| `Common.LoadShadersCorrected` | common.cpp:24-30 | with a buffer of `dirLength + nameLength + 1` bytes, the path is `"shaders/" + name`, of length `8 + |name|` |

## Left out

- main.cpp as a whole is not modelled. It covers SDL initialisation, GPU device and window creation, the Vulkan version query, the sine-based colour cycle (floating point) and event handling. These are foreign calls, I/O and floating point.
- `LoadFile` (utility.cpp:24-54) is not modelled. It is POSIX `open`/`read`/`close` with `realloc` growth: file-system I/O.
- The `LoadFile` and `SDL_Log` calls in `LoadShaders` (common.cpp:11, 14, 32-35) are not modelled: they are logging and I/O. The result of the logged probe `StringContains("vejvtyveverto", "vert")` is stated by `Utility.VertProbe`.
- The header prototypes in utility.h and common.h are not modelled. They disagree with the definitions: `LoadFile` has an extra `size_t &length` parameter, and `LoadShaders` has three parameters. The `.cpp` definitions are modelled.
- CStr.StrCpy: C's strcpy writes past the buffer when the source does not fit (undefined behaviour). The model records that case as failure and leaves the buffer unchanged.
- CStr.StrCat: the same as for `CStr.StrCpy`: an overrun is recorded as failure instead of being performed.
- Common.LoadShaders: the buffer is never freed, and this leak is not modelled. The model returns the path as a value, not the buffer.
- Utility.Uint32ToBinary: the caller owns the `new[]` buffer; its only caller, main.cpp:55, never frees it. The ownership and this leak are not modelled.
- Allocation failure is not modelled. `malloc` at common.cpp:28 can return NULL, and the source does not check for that before `strcpy`; `new char[33]` at utility.cpp:8 can throw. Dafny's `new`, used in `Utility.Uint32ToBinary` and `Common.JoinInBuffer`, always succeeds.
- Utility.StringContains: the `int` loop counter would overflow only for strings longer than 2^31 - 1 characters. The model uses an unbounded index.

## Findings

| source | as written | input that shows it | evidently intended | confidence | as-written member | corrected member |
|---|---|---|---|---|---|---|
| common.cpp:28-30 | `malloc(dirLength + nameLength)`, then `strcpy` and `strcat`, which write `dirLength + nameLength + 1` bytes including the NUL | any name; e.g. "triangle.vert" needs 22 bytes in a 21-byte buffer (strcat overruns), and "" needs 9 bytes in an 8-byte buffer (strcpy overruns) | allocate `dirLength + nameLength + 1` bytes so that the path and its terminator fit | high (not executed) | `Common.LoadShaders` | `Common.LoadShadersCorrected` |
