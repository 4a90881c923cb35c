/** Linear addresses of 4-level paging (kernel/src/memory/memory.cpp): composing and taking apart. */
module LinearAddress {

  /** The indices into the four tables and the offset into the page. */
  datatype Indices = Indices(pml4: bv16, pdpt: bv16, pd: bv16, pt: bv16, offset: bv16)

  /** What ExtractPagingIndices computes, as a value. */
  function Extract(vaddr: bv64): Indices {
    Indices(
      ((vaddr & 0xFF80_0000_0000) >> 39) as bv16,
      ((vaddr & 0x7F_C000_0000) >> 30) as bv16,
      ((vaddr & 0x3FE0_0000) >> 21) as bv16,
      ((vaddr & 0x1F_F000) >> 12) as bv16,
      (vaddr & 0xFFF) as bv16)
  }

  /** The address of the given indices in the upper half of the address space. */
  function Form(ix: Indices): bv64 {
    0xFFFF_0000_0000_0000 |
    ((ix.pml4 & 0x1FF) as bv64 << 39) | ((ix.pdpt & 0x1FF) as bv64 << 30) |
    ((ix.pd & 0x1FF) as bv64 << 21) | ((ix.pt & 0x1FF) as bv64 << 12) | (ix.offset & 0xFFF) as bv64
  }

  function Masked(ix: Indices): Indices {
    Indices(ix.pml4 & 0x1FF, ix.pdpt & 0x1FF, ix.pd & 0x1FF, ix.pt & 0x1FF, ix.offset & 0xFFF)
  }

  /** Lines 126-147: shifts the fields in one after the other. */
  method FormLinearAddress(pml4: bv16, pdpt: bv16, pd: bv16, pt: bv16, offset: bv16) returns (vaddr: bv64)
    ensures vaddr == Form(Indices(pml4, pdpt, pd, pt, offset))
  {
    vaddr := 0;
    vaddr := vaddr | 0xFFFF;
    vaddr := vaddr << 9;
    vaddr := vaddr | (pml4 & 0x1FF) as bv64;
    vaddr := vaddr << 9;
    vaddr := vaddr | (pdpt & 0x1FF) as bv64;
    vaddr := vaddr << 9;
    vaddr := vaddr | (pd & 0x1FF) as bv64;
    vaddr := vaddr << 9;
    vaddr := vaddr | (pt & 0x1FF) as bv64;
    vaddr := vaddr << 12;
    vaddr := vaddr | (offset & 0xFFF) as bv64;
  }

  /** Taking a formed address apart gives every argument back, cut to its field. */
  lemma ExtractAfterForm(ix: Indices)
    ensures Extract(Form(ix)) == Masked(ix)
  {
  }

  /** Forming the address of its own indices gives an address back exactly when its top 16 bits are ones. */
  lemma FormAfterExtractIff(vaddr: bv64)
    ensures Form(Extract(vaddr)) == vaddr <==> vaddr >> 48 == 0xFFFF
  {
  }

  predicate Before(a: Indices, b: Indices) {
    if a.pml4 != b.pml4 then a.pml4 < b.pml4
    else if a.pdpt != b.pdpt then a.pdpt < b.pdpt
    else if a.pd != b.pd then a.pd < b.pd
    else if a.pt != b.pt then a.pt < b.pt
    else a.offset < b.offset
  }

  /** With equal bits above the field, the field decides, and an equal field decides nothing. */
  lemma Pml4Decides(a: bv64, b: bv64)
    requires a >> 48 == b >> 48
    ensures Extract(a).pml4 < Extract(b).pml4 ==> a < b
    ensures Extract(a).pml4 == Extract(b).pml4 ==> a >> 39 == b >> 39
  {
  }

  lemma PdptDecides(a: bv64, b: bv64)
    requires a >> 39 == b >> 39
    ensures Extract(a).pdpt < Extract(b).pdpt ==> a < b
    ensures Extract(a).pdpt == Extract(b).pdpt ==> a >> 30 == b >> 30
  {
  }

  lemma PdDecides(a: bv64, b: bv64)
    requires a >> 30 == b >> 30
    ensures Extract(a).pd < Extract(b).pd ==> a < b
    ensures Extract(a).pd == Extract(b).pd ==> a >> 21 == b >> 21
  {
  }

  lemma PtDecides(a: bv64, b: bv64)
    requires a >> 21 == b >> 21
    ensures Extract(a).pt < Extract(b).pt ==> a < b
    ensures Extract(a).pt == Extract(b).pt ==> a >> 12 == b >> 12
  {
  }

  lemma OffsetDecides(a: bv64, b: bv64)
    requires a >> 12 == b >> 12
    ensures Extract(a).offset < Extract(b).offset ==> a < b
    ensures Extract(a).offset == Extract(b).offset ==> a == b
  {
  }

  lemma BeforeImpliesLess(a: bv64, b: bv64)
    requires a >> 48 == b >> 48 && Before(Extract(a), Extract(b))
    ensures a < b
  {
    Pml4Decides(a, b);
    if Extract(a).pml4 == Extract(b).pml4 {
      PdptDecides(a, b);
      if Extract(a).pdpt == Extract(b).pdpt {
        PdDecides(a, b);
        if Extract(a).pd == Extract(b).pd {
          PtDecides(a, b);
          if Extract(a).pt == Extract(b).pt {
            OffsetDecides(a, b);
          }
        }
      }
    }
  }

  lemma SameIndices(a: bv64, b: bv64)
    requires a >> 48 == b >> 48 && Extract(a) == Extract(b)
    ensures a == b
  {
    Pml4Decides(a, b);
    PdptDecides(a, b);
    PdDecides(a, b);
    PtDecides(a, b);
    OffsetDecides(a, b);
  }

  lemma IndexTrichotomy(x: bv16, y: bv16)
    requires x <= 0x1FF && y <= 0x1FF
    ensures x < y || y < x || x == y
  {
  }

  lemma OffsetTrichotomy(x: bv16, y: bv16)
    requires x <= 0xFFF && y <= 0xFFF
    ensures x < y || y < x || x == y
  {
  }

  lemma FieldsFit(vaddr: bv64)
    ensures var x := Extract(vaddr);
            x.pml4 <= 0x1FF && x.pdpt <= 0x1FF && x.pd <= 0x1FF && x.pt <= 0x1FF && x.offset <= 0xFFF
  {
  }

  lemma BeforeIsTotal(x: Indices, y: Indices)
    requires x.pml4 <= 0x1FF && x.pdpt <= 0x1FF && x.pd <= 0x1FF && x.pt <= 0x1FF && x.offset <= 0xFFF
    requires y.pml4 <= 0x1FF && y.pdpt <= 0x1FF && y.pd <= 0x1FF && y.pt <= 0x1FF && y.offset <= 0xFFF
    ensures Before(x, y) || Before(y, x) || x == y
  {
    IndexTrichotomy(x.pml4, y.pml4);
    IndexTrichotomy(x.pdpt, y.pdpt);
    IndexTrichotomy(x.pd, y.pd);
    IndexTrichotomy(x.pt, y.pt);
    OffsetTrichotomy(x.offset, y.offset);
  }

  lemma NotBothLess(a: bv64, b: bv64)
    requires a < b
    ensures !(b < a)
  {
  }

  lemma LessExcludes(a: bv64, b: bv64)
    requires a >> 48 == b >> 48 && a < b
    ensures !Before(Extract(b), Extract(a)) && Extract(a) != Extract(b)
  {
    NotBothLess(a, b);
    if Before(Extract(b), Extract(a)) {
      BeforeImpliesLess(b, a);
    }
    if Extract(a) == Extract(b) {
      SameIndices(a, b);
    }
  }

  lemma LessImpliesBefore(a: bv64, b: bv64)
    requires a >> 48 == b >> 48 && a < b
    ensures Before(Extract(a), Extract(b))
  {
    LessExcludes(a, b);
    FieldsFit(a);
    FieldsFit(b);
    BeforeIsTotal(Extract(a), Extract(b));
  }

  /** Addresses with the same top 16 bits are ordered as their indices are, from the top table down. */
  lemma OrderIsLexicographic(a: bv64, b: bv64)
    requires a >> 48 == b >> 48
    ensures a < b <==> Before(Extract(a), Extract(b))
  {
    if a < b {
      LessImpliesBefore(a, b);
    } else if Before(Extract(a), Extract(b)) {
      BeforeImpliesLess(a, b);
    }
  }
}
