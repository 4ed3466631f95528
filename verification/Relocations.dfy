/** Relocations of the 64-bit RELA build, and how a symbol is bound. */
module Relocations {
  import opened Words

  datatype RelType =
    | NONE | JUMP_SLOT | ABSOLUTE | GLOB_DAT | RELATIVE | IRELATIVE | COPY
    | TLS_DTPMOD | TLS_DTPREL | TLS_TPREL | TLSDESC
    | X86_64_32 | X86_64_PC32 | UNKNOWN

  /** `sym` is the index of the symbol, 0 for none. */
  datatype Reloc = Reloc(offset: u64, kind: RelType, sym: nat, addend: u64)

  datatype Bind = LOCAL | GLOBAL | WEAK | OTHER_BIND

  predicate IsTls(kind: RelType) {
    kind.TLS_DTPMOD? || kind.TLS_DTPREL? || kind.TLS_TPREL? || kind.TLSDESC?
  }
}
