/** The packer's base-relocation stream and the loaders' reading of it. */
module RelocationCodec {
  import opened Machine
  import opened Bytes
  import opened Rebasing
  import opened Relocation

  predicate OnPage(c: seq<nat>, page: nat) {
    forall i | 0 <= i < |c| :: page <= c[i] < page + PAGE_SIZE
  }

  /** One 16-bit entry per address: the type in the high four bits, the offset in the low twelve. */
  function Entries(c: seq<nat>, page: nat): (s: seq<byte>)
    requires OnPage(c, page)
    ensures |s| == 2 * |c|
  {
    if c == [] then [] else Write(DIR64 * 0x1000 + (c[0] - page), 2) + Entries(c[1..], page)
  }

  function Padding(n: nat): (s: seq<byte>)
    ensures |s| == 2 * (n % 2)
  {
    if n % 2 != 0 then Write(0, 2) else []
  }

  function Block(c: seq<nat>, page: nat): (s: seq<byte>)
    requires OnPage(c, page)
    ensures |s| == 8 + 2 * |c| + 2 * (|c| % 2)
  {
    Write(page, 4) + Write(8 + 2 * |c| + 2 * (|c| % 2), 4) + Entries(c, page) + Padding(|c|)
  }

  /** The addresses of one page. */
  datatype Group = Group(page: nat, rvas: seq<nat>) {
    predicate Valid(size: nat) {
      page < U32 && OnPage(rvas, page) && Ascending(rvas) && Within(rvas, size)
    }
  }

  predicate AllValid(groups: seq<Group>, size: nat) {
    forall i | 0 <= i < |groups| :: groups[i].Valid(size)
  }

  /** Every address is on its group's page. */
  predicate Paged(groups: seq<Group>) {
    forall i | 0 <= i < |groups| :: OnPage(groups[i].rvas, groups[i].page)
  }

  function Encode(groups: seq<Group>): (r: seq<byte>)
    requires Paged(groups)
  {
    if groups == [] then [] else Block(groups[0].rvas, groups[0].page) + Encode(groups[1..])
  }

  function Flat(groups: seq<Group>): (r: seq<nat>) {
    if groups == [] then [] else groups[0].rvas + Flat(groups[1..])
  }

  lemma FirstEntry(img: seq<byte>, at: nat, c: seq<nat>, page: nat)
    requires c != [] && OnPage(c, page) && At(img, at, Entries(c, page))
    ensures Read(img, at, 2) == DIR64 * 0x1000 + (c[0] - page)
    ensures At(img, at + 2, Entries(c[1..], page))
  {
    Powers();
    AtParts(img, at, Write(DIR64 * 0x1000 + (c[0] - page), 2), Entries(c[1..], page));
    AtNumber(img, at, DIR64 * 0x1000 + (c[0] - page), 2);
  }

  lemma {:induction false} DecodeRun(img: seq<byte>, at: nat, c: seq<nat>, page: nat, count: nat, size: nat)
    requires OnPage(c, page) && Within(c, size) && size <= U32
    requires |c| <= count && at + 2 * count <= |img| && At(img, at, Entries(c, page))
    ensures var (o, sites) := DecodeEntries(img, at + 2 * |c|, count - |c|, page, size);
            DecodeEntries(img, at, count, page, size) == (o, c + sites)
    decreases |c|
  {
    hide Read, Entries;
    var rest := DecodeEntries(img, at + 2 * |c|, count - |c|, page, size);
    if c == [] {
      assert c + rest.1 == rest.1;
    } else {
      FirstEntry(img, at, c, page);
      assert Within(c[1..], size);
      DecodeRun(img, at + 2, c[1..], page, count - 1, size);
      assert EntryAction(Read(img, at, 2), page, size) == PatchAt(c[0]);
      assert [c[0]] + (c[1..] + rest.1) == c + rest.1;
    }
  }

  predicate Ascending(c: seq<nat>) {
    forall i, j | 0 <= i < j < |c| :: c[i] < c[j]
  }

  /** A page holds at most 4096 different addresses, so a block's length fits its field. */
  lemma {:induction false} AtMostAPage(c: seq<nat>, page: nat)
    requires Ascending(c) && OnPage(c, page)
    ensures |c| <= PAGE_SIZE
  {
    if c != [] {
      Climbs(c, |c| - 1);
    }
  }

  lemma {:induction false} Climbs(c: seq<nat>, i: nat)
    requires Ascending(c) && i < |c|
    ensures c[i] >= c[0] + i
  {
    if i > 0 { Climbs(c, i - 1); }
  }

  /** The two header words of a block, its entries and its padding. */
  lemma BlockHeader(img: seq<byte>, cursor: nat, c: seq<nat>, page: nat)
    requires OnPage(c, page) && page < U32 && |c| <= PAGE_SIZE && At(img, cursor, Block(c, page))
    ensures Read(img, cursor, 4) == page && Read(img, cursor + 4, 4) == |Block(c, page)|
    ensures At(img, cursor + 8, Entries(c, page))
    ensures |c| % 2 != 0 ==> Read(img, cursor + 8 + 2 * |c|, 2) == 0
  {
    hide Read, Write, Entries;
    Powers();
    var (a, b) := (Write(page, 4), Write(|Block(c, page)|, 4));
    AtParts(img, cursor, a + b + Entries(c, page), Padding(|c|));
    AtParts(img, cursor, a + b, Entries(c, page));
    AtParts(img, cursor, a, b);
    AtNumber(img, cursor, page, 4);
    AtNumber(img, cursor + 4, |Block(c, page)|, 4);
    if |c| % 2 != 0 { AtNumber(img, cursor + 8 + 2 * |c|, 0, 2); }
  }

  lemma DecodeBlock(img: seq<byte>, cursor: nat, end: nat, c: seq<nat>, page: nat, size: nat, loader: Loader)
    requires Ascending(c) && OnPage(c, page) && Within(c, size) && size <= U32 && page < U32
    requires At(img, cursor, Block(c, page)) && cursor + |Block(c, page)| <= end <= |img|
    ensures DecodeBlocks(img, cursor, end, size, loader) ==
            if loader.User? && page + PAGE_SIZE > size then (Malformed, [])
            else var (o, more) := DecodeBlocks(img, cursor + |Block(c, page)|, end, size, loader); (o, c + more)
  {
    hide Read, DecodeEntries, Entries;
    AtMostAPage(c, page);
    BlockHeader(img, cursor, c, page);
    DecodeBlockEntries(img, cursor, c, page, size);
  }

  lemma DecodeBlockEntries(img: seq<byte>, cursor: nat, c: seq<nat>, page: nat, size: nat)
    requires Ascending(c) && OnPage(c, page) && Within(c, size) && size <= U32 && page < U32
    requires At(img, cursor, Block(c, page))
    ensures DecodeEntries(img, cursor + 8, (|Block(c, page)| - 8) / 2, page, size) == (Done, c)
  {
    hide Read, Entries;
    AtMostAPage(c, page);
    BlockHeader(img, cursor, c, page);
    var count := |c| + |c| % 2;
    DecodeRun(img, cursor + 8, c, page, count, size);
    assert DecodeEntries(img, cursor + 8 + 2 * |c|, count - |c|, page, size) == (Done, []);
    assert c + [] == c;
  }

  /** Every page named lies wholly in the image. */
  predicate WholePages(groups: seq<Group>, size: nat) {
    forall i | 0 <= i < |groups| :: groups[i].page + PAGE_SIZE <= size
  }

  /** What a loader makes of the groups one after the other. */
  function Visited(groups: seq<Group>, size: nat, loader: Loader): (r: (Outcome, seq<nat>)) {
    if groups == [] then (Done, [])
    else if loader.User? && groups[0].page + PAGE_SIZE > size then (Malformed, [])
    else var (o, more) := Visited(groups[1..], size, loader); (o, groups[0].rvas + more)
  }

  lemma NoBlocks(img: seq<byte>, end: nat, size: nat, loader: Loader)
    requires end <= |img|
    ensures DecodeBlocks(img, end, end, size, loader) == (Done, [])
  {
  }

  lemma {:induction false} DecodeVisits(img: seq<byte>, cursor: nat, end: nat, groups: seq<Group>, size: nat,
      loader: Loader)
    requires AllValid(groups, size) && size <= U32 && Paged(groups) && At(img, cursor, Encode(groups))
    requires end == cursor + |Encode(groups)|
    ensures DecodeBlocks(img, cursor, end, size, loader) == Visited(groups, size, loader)
    decreases |groups|
  {
    hide DecodeBlocks;
    if groups == [] {
      NoBlocks(img, cursor, size, loader);
    } else {
      var block := Block(groups[0].rvas, groups[0].page);
      AtParts(img, cursor, block, Encode(groups[1..]));
      DecodeBlock(img, cursor, end, groups[0].rvas, groups[0].page, size, loader);
      DecodeVisits(img, cursor + |block|, end, groups[1..], size, loader);
    }
  }

  lemma {:induction false} VisitsAll(groups: seq<Group>, size: nat, loader: Loader)
    ensures var v := Visited(groups, size, loader);
            if loader.Boot? || WholePages(groups, size) then v == (Done, Flat(groups)) else v.0 == Malformed
  {
    if groups != [] {
      VisitsAll(groups[1..], size, loader);
      assert WholePages(groups, size) <==> groups[0].page + PAGE_SIZE <= size && WholePages(groups[1..], size) by {
        assert groups == [groups[0]] + groups[1..];
      }
    }
  }

  /** How many leading addresses share the page. */
  function Run(c: seq<nat>, page: nat): (n: nat)
    ensures n <= |c| && OnPage(c[..n], page)
    ensures c != [] && page == PageOf(c[0]) ==> n > 0
  {
    if c == [] || !(page <= c[0] < page + PAGE_SIZE) then 0
    else
      var n := Run(c[1..], page);
      assert c[..n + 1] == [c[0]] + c[1..][..n];
      n + 1
  }

  /** The addresses page by page. */
  function Grouped(c: seq<nat>): (groups: seq<Group>)
    ensures Paged(groups) && (c != [] ==> groups != [])
  {
    if c == [] then []
    else
      var page := PageOf(c[0]);
      var n := Run(c, page);
      [Group(page, c[..n])] + Grouped(c[n..])
  }

  lemma {:induction false} GroupedValid(c: seq<nat>, size: nat)
    requires Ascending(c) && Within(c, size) && size <= U32
    ensures AllValid(Grouped(c), size) && Flat(Grouped(c)) == c
    decreases |c|
  {
    hide Ascending, Within, Run;
    if c != [] {
      var page := PageOf(c[0]);
      var n := Run(c, page);
      Sublists(c, n, size);
      GroupedValid(c[n..], size);
      Prepended(Group(page, c[..n]), Grouped(c[n..]), size);
      assert c[..n] + c[n..] == c;
    }
  }

  lemma Sublists(c: seq<nat>, n: nat, size: nat)
    requires Ascending(c) && Within(c, size) && n <= |c|
    ensures Ascending(c[..n]) && Within(c[..n], size) && Ascending(c[n..]) && Within(c[n..], size)
  {
  }

  lemma Prepended(g: Group, rest: seq<Group>, size: nat)
    requires AllValid(rest, size)
    ensures AllValid([g] + rest, size) <==> g.Valid(size)
    ensures Flat([g] + rest) == g.rvas + Flat(rest)
  {
    var all := [g] + rest;
    assert all[0] == g && all[1..] == rest;
    if g.Valid(size) {
      forall i | 0 <= i < |all| ensures all[i].Valid(size) {
        if i > 0 { assert all[i] == rest[i - 1]; }
      }
    }
  }

  /** Every address's page lies wholly in the image. */
  predicate PagesInside(c: seq<nat>, size: nat) {
    forall i | 0 <= i < |c| :: PageOf(c[i]) + PAGE_SIZE <= size
  }

  /** All addresses' pages lie in the image exactly when all groups' pages do. */
  lemma {:induction false} GroupedPages(c: seq<nat>, size: nat)
    ensures WholePages(Grouped(c), size) <==> PagesInside(c, size)
    decreases |c|
  {
    hide PagesInside, WholePages, OnPage, Run;
    if c == [] {
      NoPages(size);
    } else {
      var page := PageOf(c[0]);
      var n := Run(c, page);
      GroupedPages(c[n..], size);
      PagesPrepended(Group(page, c[..n]), Grouped(c[n..]), size);
      PagesSplit(c, n, page, size);
    }
  }

  lemma NoPages(size: nat)
    ensures WholePages([], size) && PagesInside([], size)
  {
  }

  lemma PagesPrepended(g: Group, rest: seq<Group>, size: nat)
    ensures WholePages([g] + rest, size) <==> g.page + PAGE_SIZE <= size && WholePages(rest, size)
  {
    var all := [g] + rest;
    assert all[0] == g && all[1..] == rest;
    assert forall i | 0 <= i < |rest| :: rest[i] == all[i + 1];
  }

  lemma PagesSplit(c: seq<nat>, n: nat, page: nat, size: nat)
    requires 0 < n <= |c| && OnPage(c[..n], page) && page % PAGE_SIZE == 0
    ensures PagesInside(c, size) <==> page + PAGE_SIZE <= size && PagesInside(c[n..], size)
  {
    forall i | 0 <= i < n ensures PageOf(c[i]) == page {
      assert c[i] == c[..n][i];
    }
    assert PageOf(c[0]) == page;
    if PagesInside(c, size) {
      forall i | 0 <= i < |c[n..]| ensures PageOf(c[n..][i]) + PAGE_SIZE <= size {
        assert c[n..][i] == c[n + i];
      }
    }
    if page + PAGE_SIZE <= size && PagesInside(c[n..], size) {
      forall i | 0 <= i < |c| ensures PageOf(c[i]) + PAGE_SIZE <= size {
        if i >= n { assert c[i] == c[n..][i - n]; }
      }
    }
  }

  /** Reading back what the packer emits visits exactly the addresses it was given, each once and in
      order; the user loader does so if and only if every page it names lies in the image. */
  lemma DecodeEncoded(img: seq<byte>, cursor: nat, c: seq<nat>, size: nat, loader: Loader)
    requires Ascending(c) && Within(c, size) && size <= U32 && At(img, cursor, Encode(Grouped(c)))
    ensures var decoded := DecodeBlocks(img, cursor, cursor + |Encode(Grouped(c))|, size, loader);
            if loader.Boot? || PagesInside(c, size) then decoded == (Done, c) else decoded.0 == Malformed
  {
    hide DecodeBlocks, Encode, Grouped, Ascending, PagesInside, WholePages;
    GroupedValid(c, size);
    GroupedPages(c, size);
    DecodeVisits(img, cursor, cursor + |Encode(Grouped(c))|, Grouped(c), size, loader);
    VisitsAll(Grouped(c), size, loader);
  }

  /** The packer's writer: a block per group, an entry per address, one more when their number is odd. */
  method WriteRelocations(c: seq<nat>) returns (stream: seq<byte>)
    requires Ascending(c)
    ensures stream == Encode(Grouped(c))
  {
    var groups := Grouped(c);
    stream := [];
    var i := 0;
    while i < |groups|
      invariant 0 <= i <= |groups|
      invariant stream + Encode(groups[i..]) == Encode(groups)
    {
      var block := WriteBlock(groups[i].rvas, groups[i].page);
      OneBlock(stream, groups, i);
      stream := stream + block;
      i := i + 1;
    }
  }

  lemma OneBlock(stream: seq<byte>, groups: seq<Group>, i: nat)
    requires Paged(groups) && i < |groups|
    ensures stream + Encode(groups[i..]) ==
            stream + Block(groups[i].rvas, groups[i].page) + Encode(groups[i + 1..])
  {
    var block := Block(groups[i].rvas, groups[i].page);
    assert groups[i..][1..] == groups[i + 1..];
    assert stream + (block + Encode(groups[i + 1..])) == (stream + block) + Encode(groups[i + 1..]);
  }

  lemma NoEntries(rvas: seq<nat>, page: nat)
    requires OnPage(rvas, page)
    ensures [] + Entries(rvas[0..], page) == Entries(rvas, page) && Entries(rvas[|rvas|..], page) == []
  {
    assert rvas[0..] == rvas;
  }

  lemma OneEntry(entries: seq<byte>, rvas: seq<nat>, i: nat, page: nat)
    requires OnPage(rvas, page) && i < |rvas|
    ensures entries + Entries(rvas[i..], page) ==
            entries + Write(DIR64 * 0x1000 + (rvas[i] - page), 2) + Entries(rvas[i + 1..], page)
  {
    var entry := Write(DIR64 * 0x1000 + (rvas[i] - page), 2);
    assert rvas[i..][1..] == rvas[i + 1..];
    assert entries + (entry + Entries(rvas[i + 1..], page)) == (entries + entry) + Entries(rvas[i + 1..], page);
  }

  method WriteBlock(rvas: seq<nat>, page: nat) returns (block: seq<byte>)
    requires OnPage(rvas, page)
    ensures block == Block(rvas, page)
  {
    hide Entries, Write;
    NoEntries(rvas, page);
    var entries: seq<byte> := [];
    var i := 0;
    while i < |rvas|
      invariant 0 <= i <= |rvas|
      invariant entries + Entries(rvas[i..], page) == Entries(rvas, page)
    {
      var entry := Write(DIR64 * 0x1000 + (rvas[i] - page), 2);
      OneEntry(entries, rvas, i, page);
      entries := entries + entry;
      i := i + 1;
    }
    assert entries == Entries(rvas, page);
    var blockSize := 8 + 2 * |rvas|;
    if blockSize % 4 != 0 {
      entries := entries + Write(0, 2);
      blockSize := blockSize + 2;
    }
    block := Write(page, 4) + Write(blockSize, 4) + entries;
  }
}
