/** `load_segment` of userprog/process.c (the non-VM build): a segment is
    filled page by page, each page reading what is left of the file
    image (at most a page) and zeroing the rest.  Page contents are
    abstract: a page is described by where it goes, where its bytes come
    from and how many are read and zeroed. */
module Loader {
  import opened Machine

  /** One page `load_segment` installs. */
  datatype PageFill = PageFill(upage: int, fileOfs: int, readBytes: int, zeroBytes: int)

  /** The pages for `readBytes` bytes read from `ofs` on followed by
      `zeroBytes` zero bytes, mapped from `upage` on. */
  function Plan(readBytes: nat, zeroBytes: nat, upage: int, ofs: int): (p: seq<PageFill>)
    requires (readBytes + zeroBytes) % PGSIZE == 0
    ensures p == [] <==> readBytes == 0 && zeroBytes == 0
    ensures p != [] ==> p[0].upage == upage && p[0].fileOfs == ofs && p[0].readBytes + p[0].zeroBytes == PGSIZE
    decreases readBytes + zeroBytes
  {
    if readBytes == 0 && zeroBytes == 0 then []
    else
      var pageRead := if readBytes < PGSIZE then readBytes else PGSIZE;
      var pageZero := PGSIZE - pageRead;
      [PageFill(upage, ofs, pageRead, pageZero)]
        + Plan(readBytes - pageRead, zeroBytes - pageZero, upage + PGSIZE, ofs + pageRead)
  }

  /** The plan has (readBytes + zeroBytes) / PGSIZE pages, which between
      them read `readBytes` bytes and zero `zeroBytes`. */
  lemma {:induction false} PlanTotals(readBytes: nat, zeroBytes: nat, upage: int, ofs: int)
    requires (readBytes + zeroBytes) % PGSIZE == 0
    ensures var p := Plan(readBytes, zeroBytes, upage, ofs);
      |p| == (readBytes + zeroBytes) / PGSIZE && SumRead(p) == readBytes && SumZero(p) == zeroBytes
    decreases readBytes + zeroBytes
  {
    if readBytes > 0 || zeroBytes > 0 {
      var pageRead := if readBytes < PGSIZE then readBytes else PGSIZE;
      PlanStep(readBytes, zeroBytes, upage, ofs);
      var r', z' := readBytes - pageRead, zeroBytes - (PGSIZE - pageRead);
      PlanTotals(r', z', upage + PGSIZE, ofs + pageRead);
      var p := Plan(readBytes, zeroBytes, upage, ofs);
      assert p[1..] == Plan(r', z', upage + PGSIZE, ofs + pageRead);
      PagesStep(readBytes + zeroBytes);
    }
  }

  lemma PagesStep(n: int)
    requires n >= PGSIZE
    ensures n / PGSIZE == (n - PGSIZE) / PGSIZE + 1
  {
  }

  function SumRead(p: seq<PageFill>): int
  {
    if p == [] then 0 else p[0].readBytes + SumRead(p[1..])
  }

  function SumZero(p: seq<PageFill>): int
  {
    if p == [] then 0 else p[0].zeroBytes + SumZero(p[1..])
  }

  function Min(a: int, b: int): int { if a < b then a else b }

  function Max(a: int, b: int): int { if a < b then b else a }

  /** Page `i` of the plan: mapped at `upage + i * PGSIZE`, reading
      min(what is left of the file image, PGSIZE) bytes from where the
      previous page stopped, and zeroing the rest of the page. */
  lemma {:induction false} PlanPage(readBytes: nat, zeroBytes: nat, upage: int, ofs: int, i: int)
    requires (readBytes + zeroBytes) % PGSIZE == 0
    requires 0 <= i < |Plan(readBytes, zeroBytes, upage, ofs)|
    ensures var pg := Plan(readBytes, zeroBytes, upage, ofs)[i];
      && pg.upage == upage + i * PGSIZE
      && pg.readBytes == Min(Max(readBytes - i * PGSIZE, 0), PGSIZE)
      && pg.zeroBytes == PGSIZE - pg.readBytes
      && pg.fileOfs == ofs + Min(readBytes, i * PGSIZE)
    decreases i
  {
    var pageRead := if readBytes < PGSIZE then readBytes else PGSIZE;
    if i > 0 {
      var r', z' := readBytes - pageRead, zeroBytes - (PGSIZE - pageRead);
      PlanPage(r', z', upage + PGSIZE, ofs + pageRead, i - 1);
      assert Plan(readBytes, zeroBytes, upage, ofs)[i] == Plan(r', z', upage + PGSIZE, ofs + pageRead)[i - 1];
    }
  }

  /** One step of the plan: the first page and the plan for the rest.
      When bytes remain there is a page, and the zero count cannot run
      out before the read count does. */
  lemma PlanStep(readBytes: nat, zeroBytes: nat, upage: int, ofs: int)
    requires (readBytes + zeroBytes) % PGSIZE == 0 && (readBytes > 0 || zeroBytes > 0)
    ensures var pageRead := if readBytes < PGSIZE then readBytes else PGSIZE;
      && PGSIZE - pageRead <= zeroBytes
      && (readBytes - pageRead + zeroBytes - (PGSIZE - pageRead)) % PGSIZE == 0
      && Plan(readBytes, zeroBytes, upage, ofs)
         == [PageFill(upage, ofs, pageRead, PGSIZE - pageRead)]
            + Plan(readBytes - pageRead, zeroBytes - (PGSIZE - pageRead), upage + PGSIZE, ofs + pageRead)
  {
    if readBytes < PGSIZE {
      NotBelowPage(readBytes + zeroBytes);
    }
  }

  lemma NotBelowPage(n: nat)
    requires n % PGSIZE == 0 && n > 0
    ensures n >= PGSIZE
  {
  }

  /** `load_segment`.  The allocator, the file read and `install_page`
      are outside the model: `avail` is the number of pages for which all
      three succeed.  On success every page of the plan is installed; on
      failure the pages before the failing one are. */
  method LoadSegment(ofs: int, upage: int, readBytes: nat, zeroBytes: nat, avail: nat)
      returns (ok: bool, installed: seq<PageFill>)
    requires (readBytes + zeroBytes) % PGSIZE == 0
    requires upage % PGSIZE == 0 && ofs % PGSIZE == 0
    ensures ok <==> avail >= |Plan(readBytes, zeroBytes, upage, ofs)|
    ensures installed == Plan(readBytes, zeroBytes, upage, ofs)[..Min(avail, |Plan(readBytes, zeroBytes, upage, ofs)|)]
  {
    var r: nat, z: nat, page, fileOfs := readBytes, zeroBytes, upage, ofs;
    installed := [];
    while r > 0 || z > 0
      invariant (r + z) % PGSIZE == 0
      invariant Plan(readBytes, zeroBytes, upage, ofs) == installed + Plan(r, z, page, fileOfs)
      invariant |installed| <= avail
      decreases r + z
    {
      PlanAdvance(readBytes, zeroBytes, upage, ofs, installed, r, z, page, fileOfs);
      if |installed| == avail {
        return false, installed;
      }
      var pageRead := if r < PGSIZE then r else PGSIZE;
      var pageZero := PGSIZE - pageRead;
      installed := installed + [PageFill(page, fileOfs, pageRead, pageZero)];
      r := r - pageRead;
      z := z - pageZero;
      page := page + PGSIZE;
      fileOfs := fileOfs + pageRead;
    }
    PlanDone(readBytes, zeroBytes, upage, ofs, installed, page, fileOfs);
    return true, installed;
  }

  /** One page of the plan is installed: what is left is the plan from
      the next page on, and the pages so far are a strict prefix. */
  lemma PlanAdvance(readBytes: nat, zeroBytes: nat, upage: int, ofs: int,
                    installed: seq<PageFill>, r: nat, z: nat, page: int, fileOfs: int)
    requires (readBytes + zeroBytes) % PGSIZE == 0 && (r + z) % PGSIZE == 0 && (r > 0 || z > 0)
    requires Plan(readBytes, zeroBytes, upage, ofs) == installed + Plan(r, z, page, fileOfs)
    ensures var pageRead := if r < PGSIZE then r else PGSIZE;
      && PGSIZE - pageRead <= z && (r - pageRead + z - (PGSIZE - pageRead)) % PGSIZE == 0
      && Plan(readBytes, zeroBytes, upage, ofs)
         == (installed + [PageFill(page, fileOfs, pageRead, PGSIZE - pageRead)])
            + Plan(r - pageRead, z - (PGSIZE - pageRead), page + PGSIZE, fileOfs + pageRead)
    ensures |installed| < |Plan(readBytes, zeroBytes, upage, ofs)|
    ensures Plan(readBytes, zeroBytes, upage, ofs)[..|installed|] == installed
  {
    PlanStep(r, z, page, fileOfs);
    var pageRead := if r < PGSIZE then r else PGSIZE;
    var first := PageFill(page, fileOfs, pageRead, PGSIZE - pageRead);
    var rest := Plan(r - pageRead, z - (PGSIZE - pageRead), page + PGSIZE, fileOfs + pageRead);
    assert installed + ([first] + rest) == (installed + [first]) + rest;
    assert (installed + Plan(r, z, page, fileOfs))[..|installed|] == installed;
  }

  /** Nothing is left: the plan is exactly what was installed. */
  lemma PlanDone(readBytes: nat, zeroBytes: nat, upage: int, ofs: int,
                 installed: seq<PageFill>, page: int, fileOfs: int)
    requires (readBytes + zeroBytes) % PGSIZE == 0
    requires Plan(readBytes, zeroBytes, upage, ofs) == installed + Plan(0, 0, page, fileOfs)
    ensures Plan(readBytes, zeroBytes, upage, ofs) == installed
    ensures Plan(readBytes, zeroBytes, upage, ofs)[..|installed|] == installed
  {
    assert installed + [] == installed;
  }
}
