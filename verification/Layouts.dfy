/** The sizes the allocator is built with. Every theorem holds for every valid layout;
    the configured build has 4096-byte pages, header == 8192, mmapHeader == 4096
    and 8000-page regions. */
module Layouts {
  import opened Arithmetic

  /** pageBits: log2 of the page size; header and mmapHeader: sizes of the two structs;
      regionSize: bytes asked of mmap; mprotect: the isMprotectEnabled flag. */
  datatype Layout = Layout(pageBits: nat, header: nat, mmapHeader: nat, regionSize: nat, mprotect: bool) {

    ghost predicate Valid() {
      && 3 <= pageBits <= 31
      && header > 0
      && mmapHeader > 0
      && FallbackSize() > mmapHeader + header
      && (mprotect ==>
            && header == 2 * Page()
            && mmapHeader == Page()
            && regionSize % Page() == 0
            && FallbackSize() % Page() == 0)
    }

    function Page(): (p: nat)
      ensures p > 0
    {
      Pow2(pageBits)
    }

    /** Where the fields of a block header start: behind the page that can be protected. */
    function FieldOffset(): nat {
      if mprotect then Page() else 0
    }

    /** The second, smaller, size tried when mmap refuses the first. */
    function FallbackSize(): (r: nat)
      ensures 10 * r <= regionSize < 10 * r + 10
    {
      regionSize / 10
    }

    /** The payload of a region that holds a single block. */
    function MaxSize(size: int): int {
      size - mmapHeader - header
    }

    /** The length actually taken from a block for a request. */
    function Round(n: nat): nat {
      if mprotect then RoundUp(n, Page()) else n
    }

    /** Distance from the start of the payload to the pointer handed to the caller. */
    function Shift(request: nat): nat {
      if mprotect then Page() - ToSize(ToInt(request)) % Page() else 0
    }

    /** The caller's size as passed on by `vgc_malloc`, with the size_t wrap-around. */
    function AlignRequest(size: nat): nat {
      if mprotect then size
      else (size + if size % 8 == 0 then 0 else 8 - size % 8) % SIZE_T
    }

    /** The header address `vgc_free` computes from a pointer. */
    function HeaderOf(ptr: nat): int {
      (if mprotect then BitAnd(64, ptr, BitNot(64, Page() - 1)) else ptr) - header
    }

    /** The shifted pointer stays inside the first payload page: fails exactly for the
        lengths that are multiples of the page size. */
    predicate Shiftable(request: nat) {
      !mprotect || request % Page() != 0
    }

    lemma ShiftOf(request: nat)
      requires Valid()
      ensures mprotect ==> Shift(request) == Page() - request % Page()
      ensures Shift(request) <= header
    {
      if mprotect {
        TruncationKeepsPageRemainder(request, pageBits);
      }
    }

    lemma RoundBounds(n: nat)
      requires Valid()
      ensures n <= Round(n)
      ensures mprotect ==> Round(n) % Page() == 0
      ensures mprotect && n % Page() != 0 ==> Shift(n) + n == Round(n)
      ensures mprotect && n % Page() == 0 ==> Shift(n) == Page() && Round(n) == n
      ensures forall m: int :: m >= n && (mprotect ==> m % Page() == 0) ==> Round(n) <= m
    {
      RoundUpLeast(n, Page());
      ShiftOf(n);
    }

    /** Page multiples are word multiples. */
    lemma WordInPage(base: int)
      requires Valid() && base % Page() == 0
      ensures base % 8 == 0
    {
      Pow2Widths();
      Pow2Monotone(3, pageBits);
      DivMod(base, Page());
      MultipleAligned(base / Page(), Page(), 8);
    }

    /** Without page protection a request becomes the least multiple of 8 that is not smaller,
        or 0 when that wraps; with it nothing changes. */
    lemma AlignRequestGrows(size: nat)
      requires size < SIZE_T
      ensures AlignRequest(size) >= size <==> mprotect || size <= SIZE_T - 8
      ensures mprotect ==> AlignRequest(size) == size
      ensures !mprotect ==> AlignRequest(size) % 8 == 0
      ensures !mprotect && size <= SIZE_T - 8 ==> AlignRequest(size) < size + 8
      ensures !mprotect && size > SIZE_T - 8 ==> AlignRequest(size) == 0
    {
    }
  }
}
