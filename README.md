# elfdiff core in Dafny

This project models the comparison engine of `elfdiff`, a command-line tool that compares two ELF images section by section. It covers:

- matching each section of the first image (A) to the first section of the second image (B) that has the same name;
- dropping the sections that cannot be compared;
- the positional alignment of the two sections' hexdump lines.

The ELF reader, the hexdump formatter and the line differ are the program's collaborators, and the model abstracts each of them:

- An image is a `seq<Section>` in on-disk order. A `Section` has:
  - an optional name (`None` when the reader cannot resolve it);
  - a type tag `ShType`;
  - optional data (`None` when extraction fails), where `Undefined(bytes)` is the raw byte blob.
- The hexdump formatter is a parameter `hex: seq<byte> -> seq<string>`. The model says nothing about its lines.
- Output is a sequence of `Event`s: `TypeMismatch`, `SkipNote`, `Differs` and `LineDiff(a, b)`. One `LineDiff` stands for one call of `diff_lines`.

Modules:

- `ElfModel` holds the data model.
- `SectionLookup` is `get_section_with_name`: a recursive reference `FirstNamed` and the scanning method `GetSectionWithName` proved equal to it.
- `SectionDiff` holds `diff_sections` as the function `DiffSections`, and `diff_section_data` as the method `DiffSectionData`. That method is proved against the reference alignment `Alignment`: one event per line of B, paired with A's line at the same index or with `""`.
- `ElfDiff` holds the loop of `main` as the method `DiffImages`. It is proved equal to `Events`, which concatenates the per-section output `SectionEvents` in A's order (through the generic ordered concatenation `Emit`). For a pair that passes the filters, the loop appends the events of the function `DiffSections`. The line part of those events is `Alignment`, which `DiffSectionData` is proved to compute. Nothing calls `DiffSectionData`: a function cannot call a method, so the loop and `DiffSections` are joined to that method through `Alignment` by design.

The type check at src/main.rs:145 compares a section's type with itself. The model reproduces this exactly, so `TypeMismatch` is never produced. `NeverTypeMismatch` proves that. `SurvivorIsDiffed` shows that a matched non-Note pair with differing blobs is diffed whatever B's type tag is, and `TypeCheckIgnoresCounterpart` gives an example with two different types.

Comparing an image with itself prints only Note notices when the resolvable section names are unique (`SelfDiffIsSilent`). With a repeated name, a later section is compared with the first section of that name. `DuplicateNamesBreakSelfDiff` shows that self-comparison can then report a difference.

## Model

| member | source | states |
|---|---|---|
| SectionLookup.FirstNamed | src/main.rs:24-38 | the result is the index of the earliest section whose name resolves and equals the target; every earlier section has an unresolved or different name; it is None exactly when no section has that name |
| SectionLookup.SectionWithName | src/main.rs:24-38 | None exactly when no section of the image has a resolvable name equal to the target; otherwise the earliest section of the image whose name resolves and equals the target |
| SectionLookup.GetSectionWithName | src/main.rs:24-39 | the scan with `continue` on unresolved or different names and an early return equals the first-match reference, and returns the earliest section named the target |
| SectionLookup.LookupSkipsUnnamed | src/main.rs:25-29 | removing a section whose name cannot be resolved never changes the result of the lookup |
| SectionDiff.DiffSectionData | src/main.rs:63-79 | the output has exactly one LineDiff per hex line of B; the i-th pairs A's i-th line (or "" past A's end) with B's i-th line |
| SectionDiff.SurplusLinesUnseen | src/main.rs:67-71 | A's hex lines at positions at or beyond B's line count never affect the output |
| SectionDiff.DiffSections | src/main.rs:81-109 | no events exactly when either data extraction fails, either side is not a raw blob, or the blobs are equal; otherwise one Differs header for A's name followed only by the aligned line diffs |
| ElfDiff.SectionEvents | src/main.rs:134-155 | an unresolved name or a missing counterpart gives no events; a matched Note section gives exactly one SkipNote whatever its data; any other matched section gives exactly the output of `diff_sections` against the first same-named section of B; no TypeMismatch is ever produced |
| ElfDiff.NeverTypeMismatch | src/main.rs:145-148 | the "Different section types" notice never appears in the output for any pair of images |
| ElfDiff.DiffImages | src/main.rs:134-156 | the loop over A's sections with its `continue` filters produces exactly the per-section events concatenated in A's order |
| ElfDiff.EventsAppend | src/main.rs:134-156 | the output for a concatenation of section lists is the concatenation of their outputs |
| ElfDiff.SectionBlock | src/main.rs:134-156 | each section's events form one contiguous block preceded by all earlier sections' events and followed by all later ones |
| ElfDiff.DroppedSectionInvisible | src/main.rs:135-143 | a section of A with an unresolvable name or no same-named section in B can be removed without changing the output |
| ElfDiff.SurvivorIsDiffed | src/main.rs:140-155 | a matched non-Note section whose blob differs from that of B's first same-named section yields a Differs header followed by the aligned hex lines, whatever B's section type is |
| ElfDiff.TypeCheckIgnoresCounterpart | src/main.rs:145-148 | an example: raw-blob sections named ".data", typed ProgBits in A and processor-specific in B, with different bytes, produce a Differs header and no type notice |
| ElfDiff.SelfDiffIsSilent | src/main.rs:134-156 | with pairwise distinct resolvable names, diffing an image against itself yields only SkipNote notices |
| ElfDiff.DuplicateNamesBreakSelfDiff | src/main.rs:140-143 | with a repeated name, a later section is matched to the first one of that name, so an image diffed against itself can report Differs |

## Left out

- Reading the files (`get_data`, src/main.rs:17-22) is file I/O; the images are given as values.
- ELF parsing by the `xmas_elf` reader (`ElfFile::new`, `section_iter`, `get_name`, `get_type`, `get_data`) is a foreign library. Its results are the fields of `Section`.
- The `unwrap` panics of `get_type` (src/main.rs:145, 150) and of `get_name` at src/main.rs:107 are not modelled. The model assumes the type tag is always readable. It assumes that the name resolved in the loop resolves again inside `diff_sections`, which the `requires` of `DiffSections` states.
- The hexdump crate's line format is a foreign routine. It is the parameter `hex`, with no claim about line width or content.
- `diff_lines` (src/main.rs:41-61): the `difference::Changeset` edit script and the coloured terminal writes are a foreign algorithm and terminal I/O. Each call is one `LineDiff(a, b)` event.
- Command-line parsing with clap (src/main.rs:111-124) and the panics on unreadable or malformed files are process plumbing. The inputs are assumed to have parsed.
- The hexdump iterators are lazy; the model works on the complete sequence of lines. The order and pairing of lines are the same.
- Determinism takes no lemma: every member is a function, or a method proved equal to one.
