/** The data the differ reads from an ELF image, abstracted from the ELF reader:
    each section header gives a name (whose lookup in the string table may fail),
    a section type tag, and section data (whose extraction may fail). */
module ElfModel {

  datatype Option<+T> = None | Some(value: T)

  newtype byte = x: int | 0 <= x < 256

  /** Section type tags of the ELF reader; only `Note` is singled out by the differ. */
  datatype ShType =
    | Null | ProgBits | SymTab | StrTab | Rela | Hash | Dynamic | Note | NoBits
    | Rel | ShLib | DynSym | InitArray | FiniArray | PreInitArray | Group | SymTabShIndex
    | OsSpecific(code: nat) | ProcessorSpecific(code: nat) | User(code: nat)

  /** Decoded section contents: `Undefined` is the raw byte blob the differ compares;
      every other decoding (symbol tables, relocations, notes, ...) is `Interpreted`. */
  datatype SectionData =
    | Empty
    | Undefined(bytes: seq<byte>)
    | Interpreted(variant: string)

  /** One section header: `name` is None when the name cannot be resolved,
      `data` is None when extracting the section data fails. */
  datatype Section = Section(name: Option<string>, shType: ShType, data: Option<SectionData>)

  /** An image is its section table, in on-disk order. */
  type Image = seq<Section>

  /** The external hexdump formatter: bytes to the ordered text lines of their dump. */
  type HexDump = seq<byte> -> seq<string>

  /** Output of the differ, one event per printed notice or per line-diff call. */
  datatype Event =
    | TypeMismatch(section: string)   // "Different section types for ..."
    | SkipNote(section: string)       // "Skipping over Note section type for ..."
    | Differs(section: string)        // "Section ... differs"
    | LineDiff(lineOne: string, lineTwo: string)  // one call of the line differ

  /** True when the section's name resolves and equals `name`. */
  predicate HasName(s: Section, name: string) {
    s.name == Some(name)
  }
}
