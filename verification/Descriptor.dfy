/** The 64-bit descriptor words of VMSAv8-64 (chapter D8 of the Arm ARM, "Translation table
    descriptor formats") as `fill_translation_table` writes and reads them. */
module Descriptor {

  // Bits 63:52 and 11:2.
  const ATTRIBUTES: bv64 := 0xFFF0_0000_0000_0FFC
  const ADDRESS_SPACE: bv64 := 0x0000_FFFF_FFFF_FFFF

  datatype Descriptor =
    | Invalid
    | Block(pa: bv64, attr: bv64)
    | Page(pa: bv64, attr: bv64)
    | Table(base: bv64)

  // Page sizes, and the spans of blocks at levels 1 and 2, for the three granules.
  predicate PageSize(page: bv64) {
    page in {0x1000, 0x4000, 0x1_0000}
  }

  predicate BlockSize(size: bv64) {
    size in {0x20_0000, 0x4000_0000, 0x200_0000, 0x2000_0000}
  }

  function Low(size: bv64): bv64 {
    size - 1
  }

  // Lines 148-150, 168-170 and 393-394.
  function PageWord(out: bv64, page: bv64, attr: bv64): bv64 {
    (2 | 1) | (out & !Low(page)) | attr
  }

  function BlockWord(out: bv64, size: bv64, attr: bv64): bv64 {
    (0 | 1) | (out & !Low(size)) | attr
  }

  function TableWord(base: bv64, page: bv64): bv64 {
    (2 | 1) | (base & !Low(page))
  }

  // pgt_addr_mask (line 509): bits 47 down to the page size.
  function AddressMask(page: bv64): bv64 {
    ADDRESS_SPACE & !Low(page)
  }

  // Line 184: allocate a table, or follow the one that is there.
  predicate Allocates(word: bv64) {
    word == 0 || word & 2 == 0
  }

  // The architecture's reading of a word found at a level, where a block there spans `size`.
  function Decode(last: bool, size: bv64, page: bv64, word: bv64): (d: Descriptor) {
    if word & 1 == 0 then Invalid
    else if last then
      if word & 2 == 0 then Invalid else Page(word & AddressMask(page), word & ATTRIBUTES)
    else if word & 2 == 0 then Block(word & ADDRESS_SPACE & !Low(size), word & ATTRIBUTES)
    else Table(word & AddressMask(page))
  }

  // Attributes that stay inside the attribute fields, addresses that fit and are aligned.
  predicate Encodable(out: bv64, size: bv64, attr: bv64) {
    attr & !ATTRIBUTES == 0 && out & !ADDRESS_SPACE == 0 && out & Low(size) == 0
  }

  lemma PageRoundTrip(out: bv64, page: bv64, attr: bv64, size: bv64)
    requires PageSize(page) && Encodable(out, page, attr)
    ensures Decode(true, size, page, PageWord(out, page, attr)) == Page(out, attr)
  {
    if page == 0x1000 {
    } else if page == 0x4000 {
    }
  }

  // Nothing else survives: a stray attribute bit or an address that does not fit is lost.
  lemma PageRoundTripOnly(out: bv64, page: bv64, attr: bv64, size: bv64)
    requires PageSize(page) && Decode(true, size, page, PageWord(out, page, attr)) == Page(out, attr)
    ensures Encodable(out, page, attr)
  {
    if page == 0x1000 {
    } else if page == 0x4000 {
    }
  }

  lemma BlockRoundTrip(out: bv64, size: bv64, attr: bv64, page: bv64)
    requires BlockSize(size) && Encodable(out, size, attr)
    ensures Decode(false, size, page, BlockWord(out, size, attr)) == Block(out, attr)
    ensures Allocates(BlockWord(out, size, attr))
  {
    if size == 0x20_0000 {
    } else if size == 0x4000_0000 {
    } else if size == 0x200_0000 {
    }
  }

  // A table descriptor is followed, not reallocated, and line 390 recovers the table it names.
  lemma TableFollowed(base: bv64, page: bv64, size: bv64)
    requires PageSize(page)
    ensures !Allocates(TableWord(base, page))
    ensures Decode(false, size, page, TableWord(base, page)) == Table(TableWord(base, page) & AddressMask(page))
  {
    if page == 0x1000 {
    } else if page == 0x4000 {
    }
  }

  // The address survives exactly if it is aligned and fits.
  lemma TableRoundTrip(base: bv64, page: bv64)
    requires PageSize(page)
    ensures TableWord(base, page) & AddressMask(page) == base <==> base & !ADDRESS_SPACE == 0 && base & Low(page) == 0
  {
    if page == 0x1000 {
    } else if page == 0x4000 {
    }
  }

  // The two words that make line 184 allocate are the two that do not lead to a table.
  lemma AllocatesIff(word: bv64, size: bv64, page: bv64)
    requires word & 1 == 1 || word == 0
    ensures Allocates(word) <==> !Decode(false, size, page, word).Table?
  {
  }
}
