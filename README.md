# IMH signature scanner — a verified Dafny model

This project models the signature scanner of the `IMH::Scanner` namespace in
`IMH2.0.hpp`. The scanner is used as
`patternscan("48 8B ?? ?? ?? ?? ?? 48 85 C0 74 0A")`. It finds a byte pattern
with nibble wildcards in the code of a loaded Windows module and returns its
address, or 0. It has four parts plus the orchestration, five Dafny modules in all:

- `PatternCompiler` (`pattern_compiler.dfy`) is the ASCII pattern compiler:
  - `hexval`, `push_byte_token` and `compile_ascii_pattern`.
  - The input is split on C-locale whitespace and every token is upper-cased.
  - Each token becomes a byte plus a mask of its significant bits: `0xFF`,
    `0xF0`, `0x0F` or `0x00`.
  - Malformed input is an error value (`BadToken`, `BadHex`, `EmptyPattern`)
    where the source throws.
- `MaskedMatcher` (`masked_matcher.dfy`) is `find_horspool_masked`:
  - A Horspool skip search anchored on the last fully-known pattern byte.
  - A linear scan when no byte is fully known.
  - "Not found" is the haystack length.
  - The search loops, the right-to-left compare and the 256-entry skip table
    (an `array`) are imperative methods. Each is proved equal to a function.
- `PeImage` (`pe_image.dfy`) is `get_text_range`:
  - The PE/COFF headers (MS-DOS header, `PE\0\0` signature, COFF file header,
    section table) are read from the bytes of the image mapped at the module's
    base.
  - The result is the range of the first section whose name starts with
    `.text`, or the whole image (`SizeOfImage`) when there is none.
- `ModuleSelect` (`module_select.dfy`) covers `iequals`, `filename_only` and
  `find_module_by_name`. The operating system's module list is an input value
  (`Process`).
- `Scanner` (`scanner.dfy`) covers `scan_range`, `scan_module`,
  `scan_all_modules` and the three `patternscan` overloads. Every error becomes
  the address 0.

Two more modules support them. `Wrappers` (`wrappers.dfy`) holds `Option` and
`Result`. `Ascii` (`ascii.dfy`) holds the C-locale `isspace` and `toupper`.

Bytes are `bv8`, and addresses and sizes are unbounded `nat`. A byte of the
haystack agrees with a pattern byte when `(h ^ p) & m == 0`.

Each imperative method is proved equal to a specification function:
`CompileAsciiPattern == Compile`, `FindHorspoolMasked == FindAsWritten`,
`FindHorspoolMaskedFixed == FirstMatch`, `GetTextRange == TextRange`,
`FindModuleByName == ModuleByName`, `ScanAllModules == AllModulesHit`, and so
on. The lemmas state what those functions mean.

## Model

| member | source | states |
|---|---|---|
| Ascii.SpaceCodes | IMH2.0.hpp:790-793 | `isspace` in the C locale, which decides every token boundary: space and tab through carriage return, nothing else |
| Ascii.ToUpper | IMH2.0.hpp:795 | `toupper` in the C locale: only `a`..`z` change, each to its upper-case letter; the result is never a lower-case letter |
| Ascii.Upper | IMH2.0.hpp:795 | upper-casing a token keeps its length and upper-cases each character in place |
| Ascii.ToUpperKeepsSpace | IMH2.0.hpp:790-795 | upper-casing never turns whitespace into a non-space or back, so it moves no token boundary |
| Ascii.UpperIdempotent | IMH2.0.hpp:795 | upper-casing twice is upper-casing once |
| PatternCompiler.HexVal | IMH2.0.hpp:755-760 | the value is -1 exactly for a non-hex character; otherwise it is the digit's value, in either case |
| PatternCompiler.HexValIgnoresCase | IMH2.0.hpp:755-760 | a hex digit and its upper-case form have the same value |
| PatternCompiler.HighNibble | IMH2.0.hpp:765-769 | `?` as the first character leaves value and mask 0; a hex digit gives mask `0xF0`, no low bits, and the digit's value in the high nibble |
| PatternCompiler.LowNibble | IMH2.0.hpp:770-774 | `?` as the second character leaves value and mask 0; a hex digit gives mask `0x0F`, no high bits, and the digit's value in the low nibble |
| PatternCompiler.NibbleJoin | IMH2.0.hpp:769-776 | OR-ing a high and a low nibble keeps each one readable on its own, keeps the byte inside its mask, and makes one of the four nibble masks |
| PatternCompiler.PushByteToken | IMH2.0.hpp:761-777 | `?` and `??` give byte 0 with mask 0; success exactly for `?` or a 2-character token of hex digits and `?`; otherwise `BadHex` for a 2-character token and `BadToken` for any other length |
| PatternCompiler.PushByteTokenNibbles | IMH2.0.hpp:761-777 | a compiled token has one of the four nibble masks and no bits outside it; the high (low) mask nibble is set exactly when the first (second) character is not `?`; each significant nibble holds its digit's value |
| PatternCompiler.NibbleIgnoresCase | IMH2.0.hpp:755-774 | a nibble character and its upper-case form are accepted alike and give the same nibble |
| PatternCompiler.PushByteTokenIgnoresCase | IMH2.0.hpp:761-777 | upper-casing a token never changes what it compiles to |
| PatternCompiler.WordEnd | IMH2.0.hpp:792-793 | the inner scan stops at the first whitespace or at the end of the input, and every character it passes is non-space |
| PatternCompiler.WordEndAt | IMH2.0.hpp:792-793 | a run of non-space characters ended by whitespace or by the end of the input is the word the scan finds |
| PatternCompiler.TokensFrom | IMH2.0.hpp:789-798 | there are no tokens from `i` on exactly when every remaining character is whitespace |
| PatternCompiler.Tokens | IMH2.0.hpp:789-798 | an input has no tokens exactly when it is all whitespace |
| PatternCompiler.TokensAreWords | IMH2.0.hpp:790-794 | every token is non-empty and contains no whitespace |
| PatternCompiler.TokensCoverInput | IMH2.0.hpp:789-798 | the tokens joined in order are exactly the non-space characters of the input, so splitting loses and reorders nothing |
| PatternCompiler.TokenSpans | IMH2.0.hpp:790-794 | every span the tokenizer cuts is a non-empty index range inside the input, at or after the scan start |
| PatternCompiler.TokensAreSpans | IMH2.0.hpp:790-794 | there is one span per token, and token `k` is exactly the input between the ends of span `k` |
| PatternCompiler.SpansHoldNoSpace | IMH2.0.hpp:792-793 | no span contains whitespace |
| PatternCompiler.SpansAreMaximal | IMH2.0.hpp:790-793 | each span is a maximal run: whitespace or the start of the scan just before it, whitespace or the end of the input just after it |
| PatternCompiler.SpansInOrder | IMH2.0.hpp:789-797 | the spans come in input order, each ending strictly before the next begins |
| PatternCompiler.SpansCoverNonSpace | IMH2.0.hpp:789-797 | every non-space character from the scan start on lies in some span |
| PatternCompiler.WordEndOfUpper | IMH2.0.hpp:793-795 | upper-casing the input moves no word end |
| PatternCompiler.TokensOfUpper | IMH2.0.hpp:789-798 | the tokens of the upper-cased input are the upper-cased tokens, one for one |
| PatternCompiler.TokenBytes | IMH2.0.hpp:795-796 | one outcome per token, in order: outcome `k` is what `push_byte_token` makes of token `k` upper-cased, and no token alone yields the empty-pattern error |
| PatternCompiler.Assemble | IMH2.0.hpp:796 | a successful assembly of `n` tokens gives two output vectors of length `n` |
| PatternCompiler.AssembleMeaning | IMH2.0.hpp:787-798 | the output vectors are produced exactly when every token compiles; position `k` then holds token `k`'s byte and mask; an error never claims the pattern was empty |
| PatternCompiler.AssembleFirstError | IMH2.0.hpp:796 | a failed assembly reports the error of its first failing token; every token before it compiled |
| PatternCompiler.AssembleStopsAtFailure | IMH2.0.hpp:796 | once a token fails, no later token changes the outcome (the throw ends the loop) |
| PatternCompiler.AssembleFailsAt | IMH2.0.hpp:796 | when tokens before `n` compile and token `n` fails, the whole assembly fails with token `n`'s error |
| PatternCompiler.AssembleStep | IMH2.0.hpp:796 | a further token that compiles appends its byte and mask to the two output vectors |
| PatternCompiler.Compile | IMH2.0.hpp:783-801 | the result is "Empty ASCII pattern" exactly when the input is all whitespace; a compiled pattern has equal-length vectors with one byte per token |
| PatternCompiler.CompileTokenByToken | IMH2.0.hpp:783-801 | a compiled pattern is in input order: byte `k` and mask `k` are what token `k`, upper-cased, compiles to, and each byte has a nibble mask with no bits outside it |
| PatternCompiler.CompileIgnoresCase | IMH2.0.hpp:795 | compiling the upper-cased input gives the same result as compiling the input |
| PatternCompiler.NextToken | IMH2.0.hpp:790-797 | one turn of the tokenizer loop cuts out the next token and leaves exactly the tokens after it |
| PatternCompiler.CompileStepFails | IMH2.0.hpp:796 | a token that does not compile ends compilation with that token's error |
| PatternCompiler.CompileDone | IMH2.0.hpp:799-800 | after the last token the result is the assembled vectors, or "Empty ASCII pattern" if there are none |
| PatternCompiler.SkipSpace | IMH2.0.hpp:790 | the whitespace-skipping loop stops at the end or at a non-space character and drops no token |
| PatternCompiler.ScanWord | IMH2.0.hpp:792-793 | the word-scanning loop stops exactly where the word ends |
| PatternCompiler.CompileAsciiPattern | IMH2.0.hpp:783-801 | the tokenizer loop, with its whitespace skip, word scan, upper-casing and appends, returns exactly `Compile(ascii)` |
| MaskedMatcher.ByteMatchesByMask | IMH2.0.hpp:780 | mask `0xFF` compares the whole byte, `0x00` accepts any byte, and `0xF0`/`0x0F` compare only the high/low nibble |
| MaskedMatcher.FirstMatchFrom | IMH2.0.hpp:811-817 | the linear scan from `pos` returns the length or a real match, and no offset before its result matches |
| MaskedMatcher.FirstMatch | IMH2.0.hpp:804-837 | the reference result: the haystack length for an empty pattern or a short haystack; otherwise the leftmost masked match, or the length when there is none |
| MaskedMatcher.FirstMatchFromSkip | IMH2.0.hpp:826-835 | skipping offsets that hold no match leaves the leftmost match unchanged |
| MaskedMatcher.LastFullBefore | IMH2.0.hpp:808-809 | the anchor search gives the last index with mask `0xFF`, or -1, and no later index has mask `0xFF` |
| MaskedMatcher.SkipAsWritten | IMH2.0.hpp:820-823 | each skip-table entry lies in `[1, tail+1]`; an entry below `tail+1` points at a fully-known byte equal to the table index; no fully-known byte between that one and the anchor equals the index |
| MaskedMatcher.SkipFixed | IMH2.0.hpp:820-823 | the corrected entry lies in `[1, tail+1]`, and every pattern byte it jumps over is fully known and differs from the byte under the anchor |
| MaskedMatcher.SkipWindowHasNoMatch | IMH2.0.hpp:826-834 | Horspool's window argument: with no matching fully-known byte in the skipped window, none of the skipped offsets is a match |
| MaskedMatcher.HorspoolFrom | IMH2.0.hpp:825-836 | the anchored loop as written returns the length or a real match; the `n - pos` measure proves it terminates |
| MaskedMatcher.FindAsWritten | IMH2.0.hpp:804-837 | as written: the length for an empty pattern or a short haystack; otherwise the length or a real match; the leftmost match when no byte is fully known |
| MaskedMatcher.AnchorMismatch | IMH2.0.hpp:827-828 | if the byte under the anchor differs from the anchor, there is no match at that offset |
| MaskedMatcher.SkipAsWrittenIsSafe | IMH2.0.hpp:834 | when every byte before the anchor is fully known, the skip as written jumps over no match |
| MaskedMatcher.SkipFixedIsSafe | IMH2.0.hpp:834 | the corrected skip jumps over no match, whatever the masks |
| MaskedMatcher.HorspoolStep | IMH2.0.hpp:826-834 | at an offset without a match, the loop advances by the skip entry of the byte under the anchor |
| MaskedMatcher.HorspoolSkipAgrees | IMH2.0.hpp:826-834 | one skip with no match keeps the loop as written in step with the leftmost match |
| MaskedMatcher.HorspoolAtMatch | IMH2.0.hpp:828-832 | at a match the anchor byte agrees, so the loop stops there, and that offset is the leftmost match from there on |
| MaskedMatcher.HorspoolFindsLeftmost | IMH2.0.hpp:825-836 | with every byte before the anchor fully known, the loop as written finds the leftmost match |
| MaskedMatcher.FindAsWrittenLeftmost | IMH2.0.hpp:804-837 | the matcher as written returns the leftmost match whenever every byte before the anchor is fully known |
| MaskedMatcher.FindAsWrittenMissesMatch | IMH2.0.hpp:820-836 | `48 ?? C0` on `00 48 C0 C0` matches at offset 1, yet the matcher as written returns 4 ("not found") |
| MaskedMatcher.FindTail | IMH2.0.hpp:808-809 | the right-to-left anchor search returns the anchor |
| MaskedMatcher.AnchorIsLastFull | IMH2.0.hpp:808-809 | a fully-known index with no fully-known index after it is the anchor |
| MaskedMatcher.LinearScan | IMH2.0.hpp:811-817 | the no-anchor branch returns the leftmost match, or the length |
| MaskedMatcher.MatchesFromRight | IMH2.0.hpp:829-832 | the right-to-left compare is true exactly when the pattern occurs at `pos` |
| MaskedMatcher.BuildShiftAsWritten | IMH2.0.hpp:820-823 | the 256-entry table holds `SkipAsWritten` for every byte value |
| MaskedMatcher.BuildShiftFixed | IMH2.0.hpp:820-823 | the corrected 256-entry table holds `SkipFixed` for every byte value |
| MaskedMatcher.FindHorspoolMasked | IMH2.0.hpp:804-837 | the imperative matcher as written returns exactly `FindAsWritten` |
| MaskedMatcher.FindHorspoolMaskedFixed | IMH2.0.hpp:804-837 | the corrected imperative matcher returns exactly the leftmost match `FirstMatch` |
| PeImage.U16 | IMH2.0.hpp:844 | a 16-bit field is read exactly when it lies inside the image |
| PeImage.U32 | IMH2.0.hpp:845-846 | a 32-bit field is read exactly when it lies inside the image |
| PeImage.LE16 | IMH2.0.hpp:844 | a little-endian 16-bit read is below 2^16, its low byte is the first byte and its high byte the second |
| PeImage.LE32 | IMH2.0.hpp:845-846 | a little-endian 32-bit read is below 2^32, its low half is the 16-bit read at `off` and its high half the one at `off + 2` |
| PeImage.NtOffset | IMH2.0.hpp:843-846 | the NT headers are found exactly when `MZ` is at offset 0, `e_lfanew` is non-negative, and `PE\0\0` is at `e_lfanew`; the offset is `e_lfanew` |
| PeImage.SectionFields | IMH2.0.hpp:853-854 | the fields of a `.text` header are read exactly when `VirtualAddress` and `VirtualSize` lie in the image and, if `VirtualSize` is 0, `SizeOfRawData` too; the range starts at `VirtualAddress` and is `VirtualSize` long, or `SizeOfRawData` when that is 0 |
| PeImage.FindTextSection | IMH2.0.hpp:848-857 | the walk finds the first header whose name starts with `.text`, with the address and size its fields give, after headers whose names lie in the image and are not `.text`; otherwise it reports none (all names read and none matched) or the first header whose name, or whose needed fields for a `.text` header, lie outside the image |
| PeImage.TextRange | IMH2.0.hpp:841-862 | a range exists only for a non-null base with valid signatures |
| PeImage.SectionRange | IMH2.0.hpp:847-861 | a range exists only when `NumberOfSections` and `SizeOfOptionalHeader` can be read, and never starts below the base |
| PeImage.RangeOf | IMH2.0.hpp:850-861 | a found `.text` section gives `base + VirtualAddress` and its size; no `.text` section gives the whole image, `SizeOfImage` bytes from the base, when that field can be read; a header outside the image gives none |
| PeImage.FindsFirstText | IMH2.0.hpp:849-856 | the walk stops at the first `.text` header and reports its fields |
| PeImage.FindsNoText | IMH2.0.hpp:849-857 | a table without `.text` headers walks to the end |
| PeImage.TextRangeWalk | IMH2.0.hpp:848-857 | with valid headers, the range is decided by the section walk alone |
| PeImage.TextRangeTakesFirstText | IMH2.0.hpp:849-856 | the range is `base + VirtualAddress` of the first `.text` section, sized `VirtualSize`, or `SizeOfRawData` when that is 0 |
| PeImage.TextRangeFallsBackToImage | IMH2.0.hpp:858-861 | with no `.text` section, the range is the whole image from the base, `SizeOfImage` long, and the resolver still succeeds |
| PeImage.TextNameIsPrefix | IMH2.0.hpp:852 | the name test compares five bytes: `.textbss` and `.text` qualify, `.data` does not |
| PeImage.WalkSectionTable | IMH2.0.hpp:848-857 | the section loop returns exactly `FindTextSection` over all `NumberOfSections` headers |
| PeImage.ReadNtOffset | IMH2.0.hpp:843-846 | the two signature checks return exactly `NtOffset` |
| PeImage.GetTextRange | IMH2.0.hpp:841-862 | `get_text_range` returns true exactly when `TextRange` exists, and then writes that range |
| ModuleSelect.SameIgnoringCase | IMH2.0.hpp:865-870 | equal strings compare equal, and strings of different lengths never do |
| ModuleSelect.SameIgnoringCasePointwise | IMH2.0.hpp:865-870 | equal after upper-casing exactly when the lengths are equal and each pair of characters is equal after `toupper` |
| ModuleSelect.IEquals | IMH2.0.hpp:865-870 | `iequals` is true exactly when the strings are equal after `toupper` |
| ModuleSelect.LastSeparator | IMH2.0.hpp:873 | `find_last_of("\\/")`: the index of a separator with none after it, or -1 |
| ModuleSelect.FilenameOnly | IMH2.0.hpp:871-875 | the file name is never longer than the path, and a shorter one is cut right after a separator |
| ModuleSelect.FilenameOnlyIsLastComponent | IMH2.0.hpp:871-875 | the file name is a suffix of the path with no separator; a separator precedes it unless it is the whole path; a path without separators is returned whole |
| ModuleSelect.FilenameOnlyIdempotent | IMH2.0.hpp:871-875 | stripping the directory twice is stripping it once |
| ModuleSelect.FilenameOnlyDropsDirectory | IMH2.0.hpp:871-875 | `dir + sep + file` strips to `file` for either separator |
| ModuleSelect.FirstNamed | IMH2.0.hpp:919-925 | the first module from `from` on whose stripped file name matches, with no match before it; or none when no module matches |
| ModuleSelect.SelfNamesSelectMain | IMH2.0.hpp:910 | the self names are exactly `""` and `exe` and `self` in any mix of cases, and each selects the main module whatever the module list holds |
| ModuleSelect.ModuleByName | IMH2.0.hpp:909-929 | a self name gives the main module; otherwise a failed enumeration gives null, and a non-null result is the handle of a listed module whose file name matches or the handle the loaded-module table gives for the stripped name |
| ModuleSelect.ModuleByNameSelectsFirstMatch | IMH2.0.hpp:918-925 | any other name selects the first listed module whose file name matches, ignoring case and directories |
| ModuleSelect.ModuleByNameFallsBack | IMH2.0.hpp:926-928 | with no match in the list, the result is what `GetModuleHandleA` gives for the stripped name, else null |
| ModuleSelect.FindModuleByName | IMH2.0.hpp:909-929 | the imperative lookup returns exactly `ModuleByName` |
| Scanner.CompileIsWellCompiled | IMH2.0.hpp:799-800 | a compiled pattern is never empty |
| Scanner.FirstMatchIsLeftmost | IMH2.0.hpp:804-837 | the corrected search (see Findings) reports "not found" exactly when there is no match; otherwise it reports the leftmost match |
| Scanner.AsWrittenSearchFinds | IMH2.0.hpp:804-837 | the search as written only reports real matches, so it reports "not found" when there is none; when every byte before the anchor is fully known it reports "not found" exactly when there is no match, and otherwise the leftmost match |
| Scanner.RangeHit | IMH2.0.hpp:878-883 | `scan_range` fails exactly when compiling fails, with the compiler's error |
| Scanner.RangeHitFinds | IMH2.0.hpp:878-883 | a nonzero result is `base + off` for a match at `off`, and no match gives 0; when every byte before the anchor is fully known, a nonzero result is the leftmost match and 0 means a null base or no match |
| Scanner.ScanRange | IMH2.0.hpp:878-883 | compile, the masked Horspool search as written and the `off == size` test return exactly `RangeHit` |
| Scanner.MatchInWindow | IMH2.0.hpp:881 | a match in a range read from the image is a match in the image at the range's offset, and back |
| Scanner.LeftmostInWindow | IMH2.0.hpp:881 | the leftmost match in a range is, in the image, a match that no other match inside the range precedes |
| Scanner.ModuleHit | IMH2.0.hpp:885-889 | with no `.text` range the result is 0; an error happens only when there is a range and the pattern fails to compile; an address needs a compiled pattern |
| Scanner.ModuleHitFinds | IMH2.0.hpp:885-889 | a nonzero result lies in the module's `.text` range, which lies in its image, and is a match there; the leftmost one when every byte before the anchor is fully known |
| Scanner.ScanModule | IMH2.0.hpp:885-889 | `get_text_range` then `scan_range` return exactly `ModuleHit` |
| Scanner.FirstNonzero | IMH2.0.hpp:899-906 | the walk gives 0 exactly when every module from `from` on gives 0 |
| Scanner.FirstNonzeroIsFirst | IMH2.0.hpp:899-906 | the walk returns the outcome of the first module that does not give 0 |
| Scanner.ModuleHits | IMH2.0.hpp:899-905 | one outcome per listed module, in list order |
| Scanner.WalkOutcome | IMH2.0.hpp:899-906 | whatever module ends the walk, an error is the compiler's and an address needs a compiled pattern |
| Scanner.AllModulesHit | IMH2.0.hpp:891-907 | an error from `scan_all_modules` is the compiler's; a nonzero address needs a compiled pattern |
| Scanner.ScanModulesFrom | IMH2.0.hpp:903-905 | the module loop returns exactly the first outcome that is not 0, from `from` on |
| Scanner.ScanAllModules | IMH2.0.hpp:891-907 | the enumeration check, module 0 first, then the loop from 1, return exactly `AllModulesHit` |
| Scanner.AddressOf | IMH2.0.hpp:938-939 | a caught exception is the address 0, so a nonzero address always comes from a search that succeeded |
| Scanner.ScanAnyModule | IMH2.0.hpp:936-940 | a nonzero address needs a pattern, a successful enumeration and a pattern that compiles |
| Scanner.ScanAnyModuleFirstHit | IMH2.0.hpp:899-906 | the address returned is the hit of the first module, in list order, whose search gives one |
| Scanner.ScanAnyModuleNone | IMH2.0.hpp:906 | when no module's search finds the pattern, the result is 0 |
| Scanner.BadPatternScansToZero | IMH2.0.hpp:938-939 | a pattern that does not compile never yields an address: the exception becomes 0 |
| Scanner.ModuleAt | IMH2.0.hpp:947 | the module a handle names is a listed module with that handle; none when no listed module has it |
| Scanner.HandleHit | IMH2.0.hpp:946-947 | a nonzero address needs a non-null handle that names a listed module and a compiled pattern, and is that module's hit |
| Scanner.ScanNamedModule | IMH2.0.hpp:942-950 | a module name that `find_module_by_name` resolves to null gives 0; a nonzero address needs a pattern that compiles and is the hit of the listed module with the resolved handle |
| Scanner.NamedModuleIsFirstMatch | IMH2.0.hpp:945-947 | for a name other than the self names, the result is the scan of the first listed module whose stripped file name matches ignoring case |
| Scanner.NullModuleNameIsMain | IMH2.0.hpp:945 | a null module name and every self name scan the main module |
| Scanner.ScanRegion | IMH2.0.hpp:952-963 | a nonzero result needs a non-null pattern, base and size and a pattern that compiles, and is `base +` an offset where the pattern occurs; no match gives 0; when every byte before the anchor is fully known, the result is nonzero exactly when there is a match, and then it is the leftmost |
| Scanner.ScanRegionMissesMatch | IMH2.0.hpp:952-963 | `patternscan(0x1000, 4, "48 ?? C0")` over `00 48 C0 C0` returns 0 although the pattern occurs at 0x1001 |
| Scanner.PatternScan | IMH2.0.hpp:936-940 | `patternscan(pattern)` returns exactly `ScanAnyModule` |
| Scanner.PatternScanInModule | IMH2.0.hpp:942-950 | `patternscan(module, pattern)` returns exactly `ScanNamedModule` |
| Scanner.PatternScanInRange | IMH2.0.hpp:952-963 | `patternscan(base, size, pattern)` returns exactly `ScanRegion` |

## Left out

- Reading process memory. The bytes of a module image are an input sequence.
  - A header read or section range outside that sequence makes the model return "no range" or scan to 0.
  - The source has no bounds checks and would read whatever memory lies there.
  - A negative `e_lfanew` is treated as out of the image.
  - Of a section header, only the bytes the source reads must lie in the image: the five name bytes compared, then for a `.text` header `VirtualSize` and `VirtualAddress`, and `SizeOfRawData` only when `VirtualSize` is 0.
  - A `.text` range outside the image still compiles the pattern, so its error is kept, and then gives 0.
- PeImage.TextRange: the null `nt` pointer test is not modelled. The sum `base + e_lfanew` is never null for a non-null base.
- Operating-system calls are inputs of the `Process` value:
  - `EnumProcessModules` success and the module list;
  - `GetModuleFileNameExA` success and the path;
  - `GetModuleHandleW(nullptr)`;
  - the names `GetModuleHandleA` knows (`loadedByName`, looked up by the exact stripped name).
- Scanner.HandleHit: a handle that names no listed module scans to 0. The source would scan memory at that address.
- `MAX_PATH` truncation of module paths is not modelled.
- The fixed `HMODULE mods[1024]` buffer is not modelled. The module list is whatever the enumeration reports. The source's `count` comes from `cbNeeded` and can exceed 1024, which would read past the buffer.
- Pointer-width arithmetic is not modelled. Addresses and sizes are unbounded `nat`, and `base + off` cannot wrap around.
- Exception message texts are reduced to the three error values.
- Characters are Dafny `char`s with the C-locale rules: only ASCII letters change case, and only ASCII space, tab, LF, VT, FF and CR are whitespace. Every pattern and module name arrives as a NUL-terminated `const char*`, so the `std::string` built from it stops at the first `'\0'`. A Dafny string containing `'\0'` stands for no input the source can receive.
- Compiling per module: the specification functions of `Scanner` take the outcome of compiling the pattern once. The methods recompile for every module, as the source does. Compiling is pure, so the two agree.
- The orchestration (`ScanRange` and everything above it) uses the matcher as written, `FindHorspoolMasked`, as the source does. So its contracts promise the leftmost match only for patterns with every byte before the anchor fully known (`ExactBeforeAnchor`). For other patterns they promise only that a nonzero address is a real match; see Findings. The corrected matcher, `FindHorspoolMaskedFixed`, is proved on its own in `MaskedMatcher` and is not wired into the orchestration.
- Scanner.FirstMatchIsLeftmost: states the leftmost-match property of the corrected search only; for the search as written, which `scan_range` calls, `Scanner.AsWrittenSearchFinds` states what holds.
- Scanner.RangeHitFinds: the leftmost-match half and "a match gives a nonzero address" hold only under `ExactBeforeAnchor`, because the search as written can miss matches otherwise (see Findings).
- Scanner.ModuleHitFinds: the leftmost-match half holds only under `ExactBeforeAnchor`, for the same reason.
- Scanner.ScanRegion: "nonzero exactly when there is a match" and the leftmost-match half hold only under `ExactBeforeAnchor`, for the same reason; `Scanner.ScanRegionMissesMatch` shows a miss.

## Findings

| source | as written | input that shows it | evidently intended | confidence | as-written member | corrected member |
|---|---|---|---|---|---|---|
| IMH2.0.hpp:820-823 | the skip table enters only fully-known pattern bytes before the anchor, so a wildcard or half-known byte there never lowers an entry, and the loop can jump over a real match | pattern `48 ?? C0` on bytes `00 48 C0 C0`: at offset 0 the anchor `C0` agrees, the full compare fails, and the skip for `C0` is 3, past the match at offset 1; the result is 4 ("not found"), and `patternscan(0x1000, 4, "48 ?? C0")` returns 0 (`Scanner.ScanRegionMissesMatch`). The pattern shown in the usage comment at line 933 also has wildcards before its anchor | the leftmost match: a byte before the anchor that is not fully known caps every skip entry at `tail - i` | high (not executed) | MaskedMatcher.FindAsWrittenMissesMatch | MaskedMatcher.FindHorspoolMaskedFixed |
