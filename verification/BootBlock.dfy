/** `bblk_read` of xboot.c: reads an image from NAND flash, skipping blocks that carry a
    bad-block mark on their first or second page. */
module BootBlock {
  import opened Bytes
  import opened DivMod

  /** One page read: the mark byte of the spare area, the payload (always a full page) and
      whether the read succeeded. */
  datatype Page = Page(mark: byte, data: seq<byte>, ok: bool)

  /** `pages` pages of `size` bytes in a block. */
  datatype Flash = Flash(pages: nat, size: nat, page: nat -> Page) {
    ghost predicate Valid() {
      && pages > 0 && size > 0 && pages * size < TWO_32
      && forall p :: |page(p).data| == size
    }

    function PageNumber(b: nat, j: nat): nat {
      b * pages + j
    }

    function At(b: nat, j: nat): Page {
      page(PageNumber(b, j))
    }

    predicate Marked(b: nat, j: nat) {
      At(b, j).mark != 0xFF
    }

    /** Block b is rejected while `need` more pages are wanted: page 0 is marked, or page 1
        is reached and marked. */
    predicate Rejected(b: nat, need: nat) {
      Marked(b, 0) || (At(b, 0).ok && need > 1 && pages > 1 && Marked(b, 1))
    }

    /** The pages of block b that are read when `need` more pages are wanted. */
    function Share(need: nat): nat {
      if need < pages then need else pages
    }

    predicate Readable(b: nat, n: nat) {
      forall j :: 0 <= j < n ==> At(b, j).ok
    }

    /** The payload of the first n pages of block b. */
    function Payload(b: nat, n: nat): seq<byte> {
      if n == 0 then [] else Payload(b, n - 1) + At(b, n - 1).data
    }
  }

  datatype Result = Success | TooManyBad | PageFailed | RanOut

  /** What a read of `need` pages from block b on comes to, when `skips` more rejected
      blocks are tolerated; `blocks` lists the accepted blocks. */
  datatype Outcome = Outcome(result: Result, blocks: seq<nat>, data: seq<byte>)

  ghost function ReadFrom(fl: Flash, b: nat, need: nat, skips: nat): Outcome
    requires fl.pages > 0 && need > 0
    decreases need + skips
  {
    if fl.Rejected(b, need) then
      if skips == 0 then Outcome(TooManyBad, [], []) else ReadFrom(fl, b + 1, need, skips - 1)
    else if !fl.Readable(b, fl.Share(need)) then Outcome(PageFailed, [], [])
    else if need <= fl.pages then Outcome(Success, [b], fl.Payload(b, need))
    else Prepend(b, fl.Payload(b, fl.pages), ReadFrom(fl, b + 1, need - fl.pages, skips))
  }

  ghost function Prepend(b: nat, data: seq<byte>, rest: Outcome): Outcome {
    rest.(blocks := [b] + rest.blocks, data := data + rest.data)
  }

  /** The pages still wanted when the i-th block of a list is read. */
  function NeedAt(fl: Flash, need: nat, i: nat): int {
    need - i * fl.pages
  }

  /** How many of the blocks in `bs` lie before block x. */
  function Before(bs: seq<nat>, x: nat): nat {
    if bs == [] || bs[0] >= x then 0 else 1 + Before(bs[1..], x)
  }

  function AllPayloads(fl: Flash, bs: seq<nat>, need: nat): seq<byte> {
    if bs == [] then []
    else fl.Payload(bs[0], fl.Share(need))
         + AllPayloads(fl, bs[1..], if need < fl.pages then 0 else need - fl.pages)
  }

  /** The data is the payload of successive accepted blocks from b on, just enough of them;
      every block passed over was rejected when it was looked at, `skips` of them at most. */
  ghost predicate Explains(fl: Flash, b: nat, need: nat, skips: nat, bs: seq<nat>, data: seq<byte>) {
    && bs != [] && data == AllPayloads(fl, bs, need)
    && (|bs| - 1) * fl.pages < need <= |bs| * fl.pages
    && b <= bs[0] && (forall i :: 0 <= i < |bs| - 1 ==> bs[i] < bs[i + 1])
    && bs[|bs| - 1] < b + |bs| + skips
    && (forall i :: 0 <= i < |bs| ==> Accepted(fl, bs[i], NeedAt(fl, need, i)))
    && (forall x :: b <= x <= bs[|bs| - 1] && x !in bs ==> PassedOver(fl, x, NeedAt(fl, need, Before(bs, x))))
  }

  ghost predicate Accepted(fl: Flash, b: nat, need: int) {
    need > 0 && !fl.Rejected(b, need) && fl.Readable(b, fl.Share(need))
  }

  ghost predicate PassedOver(fl: Flash, b: nat, need: int) {
    need > 0 && fl.Rejected(b, need)
  }

  lemma ExplainSkip(fl: Flash, b: nat, need: nat, skips: nat, bs: seq<nat>, data: seq<byte>)
    requires need > 0 && skips > 0 && fl.Rejected(b, need) && Explains(fl, b + 1, need, skips - 1, bs, data)
    ensures Explains(fl, b, need, skips, bs, data)
  {
    assert Before(bs, b) == 0 && NeedAt(fl, need, 0) == need;
  }

  lemma {:induction false} ExplainCons(fl: Flash, b: nat, need: nat, skips: nat, r: seq<nat>, data: seq<byte>)
    requires need > fl.pages && Accepted(fl, b, need) && Explains(fl, b + 1, need - fl.pages, skips, r, data)
    ensures Explains(fl, b, need, skips, [b] + r, fl.Payload(b, fl.pages) + data)
  {
    var bs := [b] + r;
    assert bs[1..] == r;
    Distribute(|r| - 1, 1, fl.pages);
    Distribute(|r|, 1, fl.pages);
    forall i | 0 <= i < |bs| ensures Accepted(fl, bs[i], NeedAt(fl, need, i)) {
      if i > 0 {
        NeedShifts(fl, need, i - 1);
        assert bs[i] == r[i - 1];
      }
    }
    forall x | b <= x <= bs[|bs| - 1] && x !in bs ensures PassedOver(fl, x, NeedAt(fl, need, Before(bs, x))) {
      assert x != b && x !in r;
      assert Before(bs, x) == 1 + Before(r, x);
      NeedShifts(fl, need, Before(r, x));
    }
  }

  /** Main result on a successful read. */
  lemma {:induction false} SuccessMeans(fl: Flash, b: nat, need: nat, skips: nat)
    requires fl.pages > 0 && need > 0 && ReadFrom(fl, b, need, skips).result == Success
    ensures var o := ReadFrom(fl, b, need, skips); Explains(fl, b, need, skips, o.blocks, o.data)
    decreases need + skips
  {
    if fl.Rejected(b, need) {
      SuccessMeans(fl, b + 1, need, skips - 1);
      var o := ReadFrom(fl, b + 1, need, skips - 1);
      ExplainSkip(fl, b, need, skips, o.blocks, o.data);
    } else if need <= fl.pages {
      assert [b][1..] == [];
    } else {
      SuccessMeans(fl, b + 1, need - fl.pages, skips);
      var o := ReadFrom(fl, b + 1, need - fl.pages, skips);
      ExplainCons(fl, b, need, skips, o.blocks, o.data);
    }
  }

  /** Every block that is used has marks 0xFF on the pages that tell, every block passed over has not. */
  lemma {:induction false} MarksDecide(fl: Flash, b: nat, need: nat, skips: nat)
    requires fl.pages > 0 && need > 0 && ReadFrom(fl, b, need, skips).result == Success
    ensures var bs := ReadFrom(fl, b, need, skips).blocks;
            && bs != []
            && (forall i :: 0 <= i < |bs| ==>
                  && fl.At(bs[i], 0).mark == 0xFF
                  && (need - i * fl.pages > 1 && fl.pages > 1 ==> fl.At(bs[i], 1).mark == 0xFF))
            && (forall x :: b <= x <= bs[|bs| - 1] && x !in bs ==>
                  fl.At(x, 0).mark != 0xFF || fl.At(x, 1).mark != 0xFF)
  {
    SuccessMeans(fl, b, need, skips);
    var bs := ReadFrom(fl, b, need, skips).blocks;
    forall i | 0 <= i < |bs|
      ensures fl.At(bs[i], 0).mark == 0xFF
      ensures need - i * fl.pages > 1 && fl.pages > 1 ==> fl.At(bs[i], 1).mark == 0xFF
    {
      assert Accepted(fl, bs[i], NeedAt(fl, need, i));
    }
    forall x | b <= x <= bs[|bs| - 1] && x !in bs
      ensures fl.At(x, 0).mark != 0xFF || fl.At(x, 1).mark != 0xFF
    {
      assert PassedOver(fl, x, NeedAt(fl, need, Before(bs, x)));
    }
  }

  /** Different blocks and pages are different pages of the flash. */
  lemma PagesDistinct(fl: Flash, b: nat, j: nat, c: nat, k: nat)
    requires j < fl.pages && k < fl.pages && fl.PageNumber(b, j) == fl.PageNumber(c, k)
    ensures b == c && j == k
  {
    DivModUnique(b * fl.pages + j, fl.pages, b, j);
    DivModUnique(b * fl.pages + j, fl.pages, c, k);
  }

  /** The payload of n pages of the flash from page p on. */
  function PageRun(fl: Flash, p: nat, n: nat): seq<byte> {
    if n == 0 then [] else PageRun(fl, p, n - 1) + fl.page(p + n - 1).data
  }

  lemma {:induction false} PayloadIsRun(fl: Flash, b: nat, n: nat)
    ensures fl.Payload(b, n) == PageRun(fl, b * fl.pages, n)
  {
    if n > 0 {
      PayloadIsRun(fl, b, n - 1);
    }
  }

  lemma {:induction false} PageRunConcat(fl: Flash, p: nat, m: nat, n: nat)
    ensures PageRun(fl, p, m + n) == PageRun(fl, p, m) + PageRun(fl, p + m, n)
  {
    if n > 0 {
      PageRunConcat(fl, p, m, n - 1);
    }
  }

  /** Pages that are read without failure and carry no mark. */
  predicate GoodRun(fl: Flash, p: nat, n: nat) {
    forall i :: p <= i < p + n ==> fl.page(i).mark == 0xFF && fl.page(i).ok
  }

  lemma GoodBlock(fl: Flash, b: nat, need: nat)
    requires fl.pages > 0 && need > 0 && GoodRun(fl, b * fl.pages, fl.Share(need))
    ensures !fl.Rejected(b, need) && fl.Readable(b, fl.Share(need))
  {
    forall j | 0 <= j < fl.Share(need) ensures fl.At(b, j).mark == 0xFF && fl.At(b, j).ok {
      assert fl.page(b * fl.pages + j).ok;
    }
  }

  /** Where no page is marked and none fails, the image is the run of the flash's pages from the
      first page of block b on. */
  lemma {:induction false} GoodFlashIsRun(fl: Flash, b: nat, need: nat, skips: nat)
    requires fl.pages > 0 && need > 0 && GoodRun(fl, b * fl.pages, need)
    ensures var o := ReadFrom(fl, b, need, skips);
            o.result == Success && o.data == PageRun(fl, b * fl.pages, need)
    decreases need
  {
    GoodBlock(fl, b, need);
    PayloadIsRun(fl, b, fl.Share(need));
    if need > fl.pages {
      PageRunConcat(fl, b * fl.pages, fl.pages, need - fl.pages);
      NextBlock(fl, b);
      GoodFlashIsRun(fl, b + 1, need - fl.pages, skips);
    }
  }

  lemma NextBlock(fl: Flash, b: nat)
    ensures (b + 1) * fl.pages == b * fl.pages + fl.pages
  {
  }

  lemma {:induction false} Increasing(bs: seq<nat>)
    requires bs != [] && forall i :: 0 <= i < |bs| - 1 ==> bs[i] < bs[i + 1]
    ensures bs[|bs| - 1] >= bs[0] + |bs| - 1
    ensures forall x :: x in bs ==> bs[0] <= x
  {
    if |bs| > 1 {
      assert forall i :: 0 <= i < |bs[1..]| - 1 ==> bs[1..][i] == bs[i + 1];
      Increasing(bs[1..]);
      forall x | x in bs ensures bs[0] <= x {
        var i :| 0 <= i < |bs| && bs[i] == x;
        if i > 0 {
          assert bs[1..][i - 1] == x && x in bs[1..];
          assert bs[0] < bs[0 + 1];
        }
      }
    }
  }

  lemma UnexplainSkip(fl: Flash, b: nat, need: nat, skips: nat, bs: seq<nat>, data: seq<byte>)
    requires need > 0 && fl.Rejected(b, need) && Explains(fl, b, need, skips, bs, data)
    ensures skips > 0 && Explains(fl, b + 1, need, skips - 1, bs, data)
  {
    assert Accepted(fl, bs[0], NeedAt(fl, need, 0));
    Increasing(bs);
  }

  lemma FirstExplained(fl: Flash, b: nat, need: nat, skips: nat, bs: seq<nat>, data: seq<byte>)
    requires need > 0 && Explains(fl, b, need, skips, bs, data)
    ensures bs[0] == b || PassedOver(fl, b, need)
    ensures Accepted(fl, bs[0], need)
  {
    Increasing(bs);
    assert Accepted(fl, bs[0], NeedAt(fl, need, 0));
    if bs[0] != b {
      assert b !in bs && Before(bs, b) == 0;
    }
  }

  lemma UnexplainCons(fl: Flash, b: nat, need: nat, skips: nat, bs: seq<nat>, data: seq<byte>)
    requires need > 0 && !fl.Rejected(b, need) && Explains(fl, b, need, skips, bs, data)
    ensures bs[0] == b && fl.Readable(b, fl.Share(need))
  {
    FirstExplained(fl, b, need, skips, bs, data);
  }

  lemma {:induction false} UnexplainRest(fl: Flash, b: nat, need: nat, skips: nat, bs: seq<nat>, data: seq<byte>)
    requires fl.pages > 0 && need > fl.pages && Explains(fl, b, need, skips, bs, data) && bs[0] == b
    ensures |bs| > 1 && Explains(fl, b + 1, need - fl.pages, skips, bs[1..], AllPayloads(fl, bs[1..], need - fl.pages))
  {
    var r := bs[1..];
    Increasing(bs);
    assert |bs| > 1;
    Distribute(|r| - 1, 1, fl.pages);
    Distribute(|r|, 1, fl.pages);
    forall i | 0 <= i < |r| ensures Accepted(fl, r[i], NeedAt(fl, need - fl.pages, i)) {
      NeedShifts(fl, need, i);
      assert Accepted(fl, bs[i + 1], NeedAt(fl, need, i + 1));
    }
    forall x | b + 1 <= x <= r[|r| - 1] && x !in r
      ensures PassedOver(fl, x, NeedAt(fl, need - fl.pages, Before(r, x)))
    {
      assert x !in bs;
      NeedShifts(fl, need, Before(r, x));
    }
  }

  /** The converse: blocks and data that explain a read are what the read comes to, so a
      read fails only when nothing could explain a success, and succeeds in one way only. */
  lemma {:induction false} ExplainedSucceeds(fl: Flash, b: nat, need: nat, skips: nat, bs: seq<nat>, data: seq<byte>)
    requires fl.pages > 0 && need > 0 && Explains(fl, b, need, skips, bs, data)
    ensures ReadFrom(fl, b, need, skips) == Outcome(Success, bs, data)
    decreases need + skips
  {
    if fl.Rejected(b, need) {
      UnexplainSkip(fl, b, need, skips, bs, data);
      ExplainedSucceeds(fl, b + 1, need, skips - 1, bs, data);
    } else {
      UnexplainCons(fl, b, need, skips, bs, data);
      if need <= fl.pages {
        if |bs| > 1 {
          MulMonotone(1, |bs| - 1, fl.pages);
        }
        assert bs == [b] && bs[1..] == [];
        assert AllPayloads(fl, [], if need < fl.pages then 0 else need - fl.pages) == [];
      } else {
        UnexplainRest(fl, b, need, skips, bs, data);
        ExplainedSucceeds(fl, b + 1, need - fl.pages, skips, bs[1..], AllPayloads(fl, bs[1..], need - fl.pages));
        assert bs == [b] + bs[1..];
      }
    }
  }

  lemma NeedShifts(fl: Flash, need: nat, i: nat)
    requires need >= fl.pages
    ensures NeedAt(fl, need, i + 1) == NeedAt(fl, need - fl.pages, i)
  {
    Distribute(i, 1, fl.pages);
  }

  /** ceil(x / m) <= k says k * m >= x. */
  lemma CeilDiv(k: nat, m: nat, x: nat)
    requires m > 0
    ensures k * m >= x <==> k >= (x + m - 1) / m
    ensures (x + m - 1) / m >= 0 && (x > 0 ==> (x + m - 1) / m > 0)
  {
    var q, r := (x + m - 1) / m, (x + m - 1) % m;
    assert x + m - 1 == q * m + r;
    DivNonNegative(x + m - 1, m);
    if k >= q {
      MulMonotone(q, k, m);
    } else {
      MulMonotone(k + 1, q, m);
      Distribute(k, 1, m);
    }
    if x > 0 && q <= 0 {
      MulMonotone(q, 0, m);
    }
  }

  /** The number of pages that hold `length` bytes. */
  function PagesFor(length: nat, size: nat): (n: nat)
    requires size > 0
    ensures length > 0 ==> n > 0
    ensures n * size >= length
  {
    CeilDiv((length + size - 1) / size, size, length);
    (length + size - 1) / size
  }

  lemma {:induction false} PayloadLength(fl: Flash, b: nat, n: nat)
    requires fl.Valid()
    ensures |fl.Payload(b, n)| == n * fl.size
  {
    if n > 0 {
      PayloadLength(fl, b, n - 1);
      Distribute(n - 1, 1, fl.size);
    }
  }

  datatype BlockEnd = Enough | FullBlock | Bad | Failed

  /** One page into dst at `got`. */
  method ReadPage(fl: Flash, b: nat, j: nat, dst: array<byte>, got: nat) returns (mark: byte, ok: bool)
    requires fl.Valid() && got + fl.size <= dst.Length
    modifies dst
    ensures mark == fl.At(b, j).mark && ok == fl.At(b, j).ok
    ensures dst[..got + fl.size] == old(dst[..got]) + fl.At(b, j).data
  {
    var page := fl.At(b, j);
    for i := 0 to fl.size
      invariant dst[..got + i] == old(dst[..got]) + page.data[..i]
    {
      dst[got + i] := page.data[i];
      assert dst[..got + i + 1] == dst[..got + i] + [page.data[i]];
    }
    assert page.data[..fl.size] == page.data;
    return page.mark, page.ok;
  }

  /** The page loop of `bblk_read` on one block. */
  method ReadBlock(fl: Flash, b: nat, dst: array<byte>, got0: nat, length: nat, ghost need: nat)
    returns (end: BlockEnd, got: nat)
    requires fl.Valid() && got0 < length && Wanted(fl.size, got0, length, need, dst.Length)
    modifies dst
    ensures end.Bad? <==> fl.Rejected(b, need)
    ensures end.Failed? <==> !fl.Rejected(b, need) && !fl.Readable(b, fl.Share(need))
    ensures end.Enough? ==> need <= fl.pages
    ensures end.FullBlock? ==> need > fl.pages
    ensures end.Bad? ==> got == got0 && dst[..got0] == old(dst[..got0])
    ensures end.Enough? || end.FullBlock? ==>
              got == got0 + fl.Share(need) * fl.size
              && dst[..got] == old(dst[..got0]) + fl.Payload(b, fl.Share(need))
  {
    got := got0;
    ghost var before := dst[..got0];
    var j := 0;
    while j < fl.pages
      invariant 0 <= j <= fl.pages && j < need && got == got0 + |fl.Payload(b, j)|
      invariant got <= dst.Length && dst[..got] == before + fl.Payload(b, j)
      invariant fl.Readable(b, j)
      invariant (j > 0 ==> !fl.Marked(b, 0)) && (j > 1 ==> !fl.Marked(b, 1))
    {
      PageFits(fl, b, j, got0, length, need, dst.Length);
      var mark, ok := ReadPage(fl, b, j, dst, got);
      PageBehind(fl, b, j, before, dst[..got + fl.size]);
      if j == 0 || j == 1 {
        if mark != 0xFF {
          if j == 1 {
            got := got - fl.size;
          }
          assert dst[..got0] == before;
          return Bad, got;
        }
      }
      if !ok {
        return Failed, got;
      }
      got := got + fl.size;
      j := j + 1;
      if got >= length {
        PayloadLength(fl, b, j);
        return Enough, got;
      }
    }
    PayloadLength(fl, b, j);
    end := FullBlock;
  }

  /** One more page behind what has been read of a block. */
  lemma PageBehind(fl: Flash, b: nat, j: nat, before: seq<byte>, d: seq<byte>)
    requires d == before + fl.Payload(b, j) + fl.At(b, j).data
    ensures d == before + fl.Payload(b, j + 1) && d[..|before|] == before
  {
  }

  /** From byte `got` on an image of `length` bytes takes just `need` more pages, and dst has
      room for them. */
  predicate Wanted(size: nat, got: nat, length: nat, need: nat, room: nat) {
    need > 0 && got + (need - 1) * size < length <= got + need * size <= room
  }

  /** One more page of those still wanted. */
  lemma PageFits(fl: Flash, b: nat, j: nat, got0: nat, length: nat, need: nat, room: nat)
    requires fl.Valid() && Wanted(fl.size, got0, length, need, room) && j < need
    ensures |fl.Payload(b, j + 1)| == |fl.Payload(b, j)| + fl.size && got0 + |fl.Payload(b, j + 1)| <= room
    ensures got0 + |fl.Payload(b, j + 1)| >= length <==> j + 1 == need
    ensures j == 1 ==> |fl.Payload(b, j)| == fl.size
  {
    PayloadLength(fl, b, j);
    PayloadLength(fl, b, j + 1);
    MulMonotone(j + 1, need, fl.size);
    if j + 1 < need {
      MulMonotone(j + 1, need - 1, fl.size);
    }
  }

  /** The blocks read so far, in front of what is still to come. */
  ghost function After(blocks: seq<nat>, data: seq<byte>, rest: Outcome): Outcome {
    rest.(blocks := blocks + rest.blocks, data := data + rest.data)
  }

  /** `all` is what is reached from here, with `data` in memory and `need` pages to go. */
  ghost predicate OnCourse(fl: Flash, all: Outcome, blocks: seq<nat>, data: seq<byte>, b: nat, need: nat, skips: nat)
    requires fl.pages > 0
  {
    need > 0 && all == After(blocks, data, ReadFrom(fl, b, need, skips))
  }

  lemma CourseSkips(fl: Flash, all: Outcome, blocks: seq<nat>, data: seq<byte>, b: nat, need: nat, skips: nat)
    requires fl.pages > 0 && OnCourse(fl, all, blocks, data, b, need, skips) && fl.Rejected(b, need)
    ensures skips == 0 ==> all.result == TooManyBad
    ensures skips > 0 ==> OnCourse(fl, all, blocks, data, b + 1, need, skips - 1)
  {
  }

  lemma CourseFails(fl: Flash, all: Outcome, blocks: seq<nat>, data: seq<byte>, b: nat, need: nat, skips: nat)
    requires fl.pages > 0 && OnCourse(fl, all, blocks, data, b, need, skips)
    requires !fl.Rejected(b, need) && !fl.Readable(b, fl.Share(need))
    ensures all.result == PageFailed
  {
  }

  lemma {:induction false} CourseEnds(fl: Flash, all: Outcome, blocks: seq<nat>, data: seq<byte>, b: nat, need: nat,
                                      skips: nat)
    requires fl.pages > 0 && OnCourse(fl, all, blocks, data, b, need, skips)
    requires !fl.Rejected(b, need) && fl.Readable(b, fl.Share(need)) && need <= fl.pages
    ensures all.result == Success && all.data == data + fl.Payload(b, fl.Share(need))
  {
  }

  lemma {:induction false} CourseGoesOn(fl: Flash, all: Outcome, blocks: seq<nat>, data: seq<byte>, b: nat, need: nat,
                                        skips: nat)
    requires fl.pages > 0 && OnCourse(fl, all, blocks, data, b, need, skips)
    requires !fl.Rejected(b, need) && fl.Readable(b, fl.Share(need)) && need > fl.pages
    ensures OnCourse(fl, all, blocks + [b], data + fl.Payload(b, fl.pages), b + 1, need - fl.pages, skips)
  {
    var rest, d := ReadFrom(fl, b + 1, need - fl.pages, skips), fl.Payload(b, fl.pages);
    assert blocks + ([b] + rest.blocks) == blocks + [b] + rest.blocks;
    assert data + (d + rest.data) == data + d + rest.data;
  }

  /** The rounded-up division of the C code, in 32 bits. */
  function BlocksFor(length: nat, blockSize: nat): nat
    requires blockSize > 0
  {
    DivNonNegative(Wrap32(length + blockSize - 1), blockSize);
    Wrap32(length + blockSize - 1) / blockSize
  }

  lemma BlocksOfWrapped(length: nat, bs: nat)
    requires 0 < bs < TWO_32 && length < TWO_32 && length + bs - 1 >= TWO_32
    ensures BlocksFor(length, bs) == 0
  {
    var r := length + bs - 1 - TWO_32;
    assert Wrap32(length + bs - 1) == r;
    DivModUnique(r, bs, 0, r);
  }

  lemma BlocksOfUnwrapped(length: nat, pages: nat, size: nat, bs: nat)
    requires pages > 0 && size > 0 && bs == pages * size > 0 && 0 < length && length + bs - 1 < TWO_32
    ensures BlocksFor(length, bs) * pages >= PagesFor(length, size) && BlocksFor(length, bs) > 0
  {
    var n := BlocksFor(length, bs);
    CeilDiv(n, bs, length);
    MulAssoc(n, pages, size);
    CeilDiv(n * pages, size, length);
  }

  /** Enough pages: without a wrap the blocks of the loop hold the whole image. */
  lemma BlocksSuffice(length: nat, pages: nat, size: nat)
    requires pages > 0 && size > 0 && pages * size > 0 && 0 < length < TWO_32 && pages * size < TWO_32
    ensures length + pages * size - 1 < TWO_32 ==> BlocksFor(length, pages * size) * pages >= PagesFor(length, size)
                                                   && BlocksFor(length, pages * size) > 0
    ensures length + pages * size - 1 >= TWO_32 ==> BlocksFor(length, pages * size) == 0
  {
    var bs := pages * size;
    if length + bs - 1 < TWO_32 {
      BlocksOfUnwrapped(length, pages, size, bs);
    } else {
      BlocksOfWrapped(length, bs);
    }
  }

  /** All pages of an image are wanted at the start. */
  lemma AllWanted(length: nat, size: nat, room: nat)
    requires size > 0 && length > 0 && PagesFor(length, size) * size <= room
    ensures Wanted(size, 0, length, PagesFor(length, size), room)
  {
    CeilDiv(PagesFor(length, size) - 1, size, length);
  }

  /** What is wanted behind a full block. */
  lemma StillWanted(size: nat, got: nat, length: nat, need: nat, room: nat, pages: nat)
    requires Wanted(size, got, length, need, room) && pages < need
    ensures got + pages * size < length && Wanted(size, got + pages * size, length, need - pages, room)
  {
    Distribute(pages, need - 1 - pages, size);
    Distribute(pages, need - pages, size);
  }

  /** One turn of the block loop, with the course it keeps to. */
  method StepBlock(fl: Flash, dst: array<byte>, b: nat, got0: nat, length: nat, ghost need: nat, ghost all: Outcome,
                   ghost blocks: seq<nat>, ghost skips: nat)
    returns (end: BlockEnd, got: nat)
    requires fl.Valid() && got0 < length && Wanted(fl.size, got0, length, need, dst.Length) && got0 <= dst.Length
    requires OnCourse(fl, all, blocks, dst[..got0], b, need, skips)
    modifies dst
    ensures end.Bad? && skips == 0 ==> all.result == TooManyBad
    ensures end.Bad? && skips > 0 ==> got == got0 && OnCourse(fl, all, blocks, dst[..got], b + 1, need, skips - 1)
    ensures end.Failed? ==> all.result == PageFailed
    ensures end.Enough? ==> all.result == Success && length <= |all.data| && dst[..length] == all.data[..length]
    ensures end.FullBlock? ==>
              && got < length && need > fl.pages && Wanted(fl.size, got, length, need - fl.pages, dst.Length)
              && got <= dst.Length && OnCourse(fl, all, blocks + [b], dst[..got], b + 1, need - fl.pages, skips)
  {
    ghost var before := dst[..got0];
    end, got := ReadBlock(fl, b, dst, got0, length, need);
    if end == Bad {
      CourseSkips(fl, all, blocks, before, b, need, skips);
    } else if end == Failed {
      CourseFails(fl, all, blocks, before, b, need, skips);
    } else if end == Enough {
      CourseEnds(fl, all, blocks, before, b, need, skips);
      assert all.data == dst[..got] && length <= got;
    } else {
      CourseGoesOn(fl, all, blocks, before, b, need, skips);
      StillWanted(fl.size, got0, length, need, dst.Length, fl.pages);
    }
  }

  /** The block loop of `bblk_read`. */
  method ReadBlocks(fl: Flash, dst: array<byte>, blkOff: nat, length: nat, maxSkip: nat, blks: nat)
    returns (ret: Result)
    requires fl.Valid() && length > 0 && PagesFor(length, fl.size) * fl.size <= dst.Length
    requires blks * fl.pages >= PagesFor(length, fl.size)
    modifies dst
    ensures ret != RanOut
    ensures var all := ReadFrom(fl, blkOff, PagesFor(length, fl.size), maxSkip);
            ret == all.result && (ret == Success ==> length <= |all.data| && dst[..length] == all.data[..length])
  {
    ghost var need: nat := PagesFor(length, fl.size);
    ghost var all := ReadFrom(fl, blkOff, need, maxSkip);
    AllWanted(length, fl.size, dst.Length);
    BlocksLeft(0, blks, fl.pages, need);
    var i: int, blkSkip: nat, got: nat := 0, 0, 0;
    ghost var blocks: seq<nat> := [];
    while i < blks
      invariant 0 <= i < blks && blkSkip <= maxSkip && i * fl.pages + need <= blks * fl.pages
      invariant got < length && got <= dst.Length && Wanted(fl.size, got, length, need, dst.Length)
      invariant OnCourse(fl, all, blocks, dst[..got], blkSkip + blkOff + i, need, maxSkip - blkSkip)
      decreases maxSkip - blkSkip, blks - i
    {
      ghost var b := blkSkip + blkOff + i;
      var end;
      end, got := StepBlock(fl, dst, blkSkip + blkOff + i, got, length, need, all, blocks, maxSkip - blkSkip);
      if end == Bad {
        blkSkip := blkSkip + 1;
        if blkSkip > maxSkip {
          return TooManyBad;
        }
        i := i - 1;
      } else if end == Failed {
        return PageFailed;
      } else if end == Enough {
        return Success;
      } else {
        Distribute(i, 1, fl.pages);
        blocks, need := blocks + [b], need - fl.pages;
        BlocksLeft(i + 1, blks, fl.pages, need);
      }
      i := i + 1;
    }
    assert false;
    ret := RanOut;
  }

  /** As long as pages are missing, blocks are left. */
  lemma BlocksLeft(i: nat, blks: nat, pages: nat, need: nat)
    requires need > 0 && i * pages + need <= blks * pages
    ensures i < blks
  {
    if i >= blks {
      MulMonotone(blks, i, pages);
    }
  }

  /** `bblk_read`. Main result: the outcome is that of ReadFrom, and on success dst starts
      with its data; the loop only runs out, before any read, for a length of 0 or one
      whose rounding up wraps. Block numbers are not truncated. */
  method BblkRead(fl: Flash, dst: array<byte>, blkOff: nat, length: nat, maxSkip: nat) returns (ret: Result)
    requires fl.Valid() && length < TWO_32 && PagesFor(length, fl.size) * fl.size <= dst.Length
    modifies dst
    ensures length == 0 || length + fl.pages * fl.size - 1 >= TWO_32 <==> ret == RanOut
    ensures ret != RanOut ==>
              var all := ReadFrom(fl, blkOff, PagesFor(length, fl.size), maxSkip);
              ret == all.result && (ret == Success ==> length <= |all.data| && dst[..length] == all.data[..length])
    ensures ret == RanOut ==> dst[..] == old(dst[..])
  {
    MulMonotone(1, fl.pages, fl.size);
    var blkUseSz: nat := fl.pages * fl.size;
    var blks := BlocksFor(length, blkUseSz);
    if length == 0 {
      DivModUnique(blkUseSz - 1, blkUseSz, 0, blkUseSz - 1);
    } else {
      BlocksSuffice(length, fl.pages, fl.size);
    }
    if blks == 0 {
      return RanOut;
    }
    ret := ReadBlocks(fl, dst, blkOff, length, maxSkip, blks);
  }
}
