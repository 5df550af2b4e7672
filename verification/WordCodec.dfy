/** Page-table words as 64-bit numbers: the record of PageFormat loses nothing, its or is the
    bitwise one, and the bits are where the kernel's masks say. */
module WordCodec {
  import opened Machine
  import opened Bits
  import opened PageFormat

  /** The low b bits of a number, and the others. */
  function Low(n: nat, b: nat): (r: nat) { if b == 0 then 0 else n % 2 + 2 * Low(n / 2, b - 1) }
  function High(n: nat, b: nat): (r: nat) { if b == 0 then n else High(n / 2, b - 1) }

  /** ... and back together. */
  function Put(low: nat, high: nat, b: nat): (r: nat) {
    if b == 0 then high else low % 2 + 2 * Put(low / 2, high, b - 1)
  }

  lemma {:induction false} PutLowHigh(n: nat, b: nat)
    ensures Put(Low(n, b), High(n, b), b) == n && Low(n, b) < Pow2(b)
  {
    if b > 0 { PutLowHigh(n / 2, b - 1); }
  }

  lemma {:induction false} LowHighPut(low: nat, high: nat, b: nat)
    requires low < Pow2(b)
    ensures Low(Put(low, high, b), b) == low && High(Put(low, high, b), b) == high
  {
    if b > 0 { LowHighPut(low / 2, high, b - 1); }
  }

  lemma {:induction false} HighBounds(n: nat, b: nat, more: nat)
    requires n < Pow2(b + more)
    ensures High(n, b) < Pow2(more)
  {
    if b > 0 { HighBounds(n / 2, b - 1, more); }
  }

  lemma OrHalves(x: nat, y: nat)
    ensures NatOr(x, y) / 2 == NatOr(x / 2, y / 2) && NatOr(x, y) % 2 == (if x % 2 == 1 || y % 2 == 1 then 1 else 0)
  {
  }

  lemma OrZero()
    ensures NatOr(0, 0) == 0
  {
  }

  lemma LowHalves(n: nat, b: nat)
    requires b > 0
    ensures Low(n, b) / 2 == Low(n / 2, b - 1) && Low(n, b) % 2 == n % 2
  {
  }

  /** Or works on low and high bits separately. */
  lemma {:induction false} OrLowHigh(x: nat, y: nat, b: nat)
    ensures Low(NatOr(x, y), b) == NatOr(Low(x, b), Low(y, b)) && High(NatOr(x, y), b) == NatOr(High(x, b), High(y, b))
  {
    hide NatOr;
    OrZero();
    if b > 0 {
      OrHalves(x, y);
      OrLowHigh(x / 2, y / 2, b - 1);
      OrHalves(Low(x, b), Low(y, b));
      LowHalves(x, b);
      LowHalves(y, b);
    }
  }

  /** A number cut into fields of the given widths, the first lowest; the last takes what is left. */
  function Cut(n: nat, widths: seq<nat>): (values: seq<nat>)
    ensures |values| == |widths| + 1
    decreases |widths|
  {
    if widths == [] then [n] else [Low(n, widths[0])] + Cut(High(n, widths[0]), widths[1..])
  }

  function Join(values: seq<nat>, widths: seq<nat>): (r: nat)
    requires |values| == |widths| + 1
  {
    if widths == [] then values[0] else Put(values[0], Join(values[1..], widths[1..]), widths[0])
  }

  /** Every field but the last fits its width. */
  predicate InRange(values: seq<nat>, widths: seq<nat>) {
    |values| == |widths| + 1 && forall i | 0 <= i < |widths| :: values[i] < Pow2(widths[i])
  }

  lemma {:induction false} CutJoined(values: seq<nat>, widths: seq<nat>)
    requires InRange(values, widths)
    ensures Cut(Join(values, widths), widths) == values
  {
    if widths == [] {
      assert values == [values[0]];
    } else {
      LowHighPut(values[0], Join(values[1..], widths[1..]), widths[0]);
      CutJoined(values[1..], widths[1..]);
    }
  }

  lemma {:induction false} JoinCut(n: nat, widths: seq<nat>)
    ensures Join(Cut(n, widths), widths) == n && InRange(Cut(n, widths), widths)
    decreases |widths|
  {
    if widths != [] {
      var rest := Cut(High(n, widths[0]), widths[1..]);
      PutLowHigh(n, widths[0]);
      JoinCut(High(n, widths[0]), widths[1..]);
      assert Cut(n, widths)[1..] == rest;
      forall i | 0 <= i < |widths| ensures Cut(n, widths)[i] < Pow2(widths[i]) {
        if i > 0 { assert Cut(n, widths)[i] == rest[i - 1]; }
      }
    }
  }

  function ZipOr(a: seq<nat>, b: seq<nat>): (r: seq<nat>)
    requires |a| == |b|
    ensures |r| == |a| && forall i | 0 <= i < |a| :: r[i] == NatOr(a[i], b[i])
  {
    seq(|a|, i requires 0 <= i < |a| => NatOr(a[i], b[i]))
  }

  /** Or works field by field. */
  lemma {:induction false} CutOr(x: nat, y: nat, widths: seq<nat>)
    ensures Cut(NatOr(x, y), widths) == ZipOr(Cut(x, widths), Cut(y, widths))
    decreases |widths|
  {
    if widths != [] {
      OrLowHigh(x, y, widths[0]);
      CutOr(High(x, widths[0]), High(y, widths[0]), widths[1..]);
    }
  }

  /** The bits of a word, lowest first: present, writable, user, four others, large, one other,
      copy-on-write, two others, forty of frame number, eleven others, and no-execute on top. */
  const WIDTHS: seq<nat> := [1, 1, 1, 4, 1, 1, 1, 2, 40, 11]

  /** The others, as the record numbers them. */
  const OTHERS: seq<nat> := [4, 1, 2]

  /** The record stands for a 64-bit word. */
  predicate Fits(w: Word) { w.pfn < PFN_LIMIT && w.rest < Pow2(18) }

  function Bit(b: bool): (r: nat) { if b then 1 else 0 }

  /** The i-th field, given those the other bits make up. */
  function Value(w: Word, others: seq<nat>, i: nat): (r: nat)
    requires |others| == 4 && i < 11
  {
    if i == 0 then Bit(w.present) else if i == 1 then Bit(w.writable) else if i == 2 then Bit(w.user)
    else if i == 3 then others[0] else if i == 4 then Bit(w.large) else if i == 5 then others[1]
    else if i == 6 then Bit(w.softCow) else if i == 7 then others[2] else if i == 8 then w.pfn
    else if i == 9 then others[3] else Bit(w.noExecute)
  }

  function Values(w: Word): (values: seq<nat>)
    ensures |values| == |WIDTHS| + 1
  {
    var others := Cut(w.rest, OTHERS);
    seq(11, i requires 0 <= i < 11 => Value(w, others, i))
  }

  function Number(w: Word): (r: nat) { Join(Values(w), WIDTHS) }

  function WordFrom(v: seq<nat>): (r: Word)
    requires |v| == |WIDTHS| + 1
  {
    Word(v[0] == 1, v[1] == 1, v[2] == 1, v[4] == 1, v[6] == 1, v[10] == 1, v[8],
        Join([v[3], v[5], v[7], v[9]], OTHERS))
  }

  function WordOf(n: nat): (r: Word) { WordFrom(Cut(n, WIDTHS)) }

  lemma Powers()
    ensures Pow2(0) == 1 && Pow2(1) == 2 && Pow2(2) == 4 && Pow2(4) == 16 && Pow2(11) == 2048
    ensures Pow2(40) == PFN_LIMIT
  {
    assert Pow2(10) == 1024 && Pow2(20) == 0x10_0000 && Pow2(30) == 0x4000_0000;
  }

  lemma OtherPowers(o: seq<nat>)
    requires |o| == 4
    ensures InRange(o, OTHERS) <==> o[0] < 16 && o[1] < 2 && o[2] < 4
  {
    hide Pow2;
    Powers();
    assert OTHERS[0] == 4 && OTHERS[1] == 1 && OTHERS[2] == 2;
  }

  /** The others of a record that stands for a word fit their fields. */
  lemma OthersInRange(w: Word)
    requires Fits(w)
    ensures var o := Cut(w.rest, OTHERS);
      o[0] < 16 && o[1] < 2 && o[2] < 4 && o[3] < 2048 && Join([o[0], o[1], o[2], o[3]], OTHERS) == w.rest
  {
    hide Join, Cut, Pow2, InRange;
    Powers();
    JoinCut(w.rest, OTHERS);
    OtherTotal();
    LastBound(w.rest, OTHERS, 11);
    var o := Cut(w.rest, OTHERS);
    OtherPowers(o);
    assert o == [o[0], o[1], o[2], o[3]];
  }

  lemma ValuesInRange(w: Word)
    requires Fits(w)
    ensures InRange(Values(w), WIDTHS) && WordFrom(Values(w)) == w
  {
    hide Join, Cut, Pow2;
    Powers();
    OthersInRange(w);
  }

  /** A record that stands for a word is read back from its number. */
  lemma WordOfNumber(w: Word)
    requires Fits(w)
    ensures WordOf(Number(w)) == w
  {
    ValuesInRange(w);
    CutJoined(Values(w), WIDTHS);
  }

  function Total(widths: seq<nat>): (r: nat) { if widths == [] then 0 else widths[0] + Total(widths[1..]) }

  lemma {:induction false} LastBound(n: nat, widths: seq<nat>, more: nat)
    requires n < Pow2(Total(widths) + more)
    ensures Cut(n, widths)[|widths|] < Pow2(more)
    decreases |widths|
  {
    if widths != [] {
      HighBounds(n, widths[0], Total(widths[1..]) + more);
      LastBound(High(n, widths[0]), widths[1..], more);
      assert Cut(n, widths)[|widths|] == Cut(High(n, widths[0]), widths[1..])[|widths| - 1];
    }
  }

  lemma {:induction false} PutBound(low: nat, high: nat, b: nat, more: nat)
    requires low < Pow2(b) && high < Pow2(more)
    ensures Put(low, high, b) < Pow2(b + more)
  {
    if b > 0 { PutBound(low / 2, high, b - 1, more); }
  }

  lemma {:induction false} JoinBound(values: seq<nat>, widths: seq<nat>, more: nat)
    requires InRange(values, widths) && values[|widths|] < Pow2(more)
    ensures Join(values, widths) < Pow2(Total(widths) + more)
  {
    if widths != [] {
      JoinBound(values[1..], widths[1..], more);
      PutBound(values[0], Join(values[1..], widths[1..]), widths[0], Total(widths[1..]) + more);
    }
  }

  function TotalFrom(widths: seq<nat>, i: nat): (r: nat)
    requires i <= |widths|
  {
    Total(widths[i..])
  }

  lemma TotalStep(widths: seq<nat>, i: nat)
    requires i < |widths|
    ensures TotalFrom(widths, i) == widths[i] + TotalFrom(widths, i + 1)
  {
    assert widths[i..][1..] == widths[i + 1..];
  }

  lemma TotalEnds(widths: seq<nat>)
    ensures TotalFrom(widths, 0) == Total(widths) && TotalFrom(widths, |widths|) == 0
  {
    assert widths[0..] == widths;
  }

  lemma OtherTotal()
    ensures Total(OTHERS) == 7
  {
    hide Total, TotalFrom;
    TotalEnds(OTHERS);
    TotalStep(OTHERS, 0);
    TotalStep(OTHERS, 1);
    TotalStep(OTHERS, 2);
  }

  lemma WordTotal()
    ensures Total(WIDTHS) == 63
  {
    hide Total, TotalFrom;
    TotalEnds(WIDTHS);
    TotalStep(WIDTHS, 0);
    TotalStep(WIDTHS, 1);
    TotalStep(WIDTHS, 2);
    TotalStep(WIDTHS, 3);
    TotalStep(WIDTHS, 4);
    TotalStep(WIDTHS, 5);
    TotalStep(WIDTHS, 6);
    TotalStep(WIDTHS, 7);
    TotalStep(WIDTHS, 8);
    TotalStep(WIDTHS, 9);
  }

  lemma ValuesOf(v: seq<nat>)
    requires InRange(v, WIDTHS) && v[10] < 2
    ensures Fits(WordFrom(v)) && Values(WordFrom(v)) == v
  {
    hide Join, Cut, Pow2, Total;
    Powers();
    OtherTotal();
    assert v[0] < Pow2(WIDTHS[0]) && v[1] < Pow2(WIDTHS[1]) && v[2] < Pow2(WIDTHS[2]) && v[3] < Pow2(WIDTHS[3]);
    assert v[4] < Pow2(WIDTHS[4]) && v[5] < Pow2(WIDTHS[5]) && v[6] < Pow2(WIDTHS[6]) && v[7] < Pow2(WIDTHS[7]);
    assert v[8] < Pow2(WIDTHS[8]) && v[9] < Pow2(WIDTHS[9]);
    var o := [v[3], v[5], v[7], v[9]];
    OtherPowers(o);
    CutJoined(o, OTHERS);
    JoinBound(o, OTHERS, 11);
  }

  lemma SixtyFour()
    ensures Pow2(64) == U64
  {
    assert Pow2(10) == 1024 && Pow2(20) == 0x10_0000 && Pow2(30) == 0x4000_0000 && Pow2(40) == 0x100_0000_0000;
    assert Pow2(50) == 0x4_0000_0000_0000 && Pow2(60) == 0x1000_0000_0000_0000;
  }

  /** Every 64-bit number is the number of its record. */
  lemma NumberOfWord(n: nat)
    requires n < U64
    ensures Fits(WordOf(n)) && Number(WordOf(n)) == n
  {
    hide Join, Cut, Pow2, InRange, Fits, Total;
    Powers();
    SixtyFour();
    WordTotal();
    JoinCut(n, WIDTHS);
    LastBound(n, WIDTHS, 1);
    ValuesOf(Cut(n, WIDTHS));
  }

  lemma OrFields(a: Word, b: Word)
    ensures var c := Or(a, b);
      && Bit(c.present) == NatOr(Bit(a.present), Bit(b.present)) &&
          Bit(c.writable) == NatOr(Bit(a.writable), Bit(b.writable))
      && Bit(c.user) == NatOr(Bit(a.user), Bit(b.user)) && Bit(c.large) == NatOr(Bit(a.large), Bit(b.large))
      && Bit(c.softCow) == NatOr(Bit(a.softCow), Bit(b.softCow))
      && Bit(c.noExecute) == NatOr(Bit(a.noExecute), Bit(b.noExecute)) && c.pfn == NatOr(a.pfn, b.pfn)
  {
    hide Bit, NatOr;
    BitOr(a.present, b.present);
    BitOr(a.writable, b.writable);
    BitOr(a.user, b.user);
    BitOr(a.large, b.large);
    BitOr(a.softCow, b.softCow);
    BitOr(a.noExecute, b.noExecute);
  }

  lemma ValueOr(a: Word, b: Word, x: seq<nat>, y: seq<nat>, i: nat)
    requires |x| == |y| == 4 && i < 11
    ensures Value(Or(a, b), ZipOr(x, y), i) == NatOr(Value(a, x, i), Value(b, y, i))
  {
    hide Or, Bit, NatOr;
    OrFields(a, b);
  }

  lemma ValuesOr(a: Word, b: Word)
    ensures Values(Or(a, b)) == ZipOr(Values(a), Values(b))
  {
    hide Value, NatOr, Or, Cut;
    var (x, y) := (Cut(a.rest, OTHERS), Cut(b.rest, OTHERS));
    OtherOr(a, b);
    forall i: nat | i < 11 ensures Values(Or(a, b))[i] == NatOr(Values(a)[i], Values(b)[i]) {
      ValueOr(a, b, x, y, i);
    }
  }

  lemma OtherOr(a: Word, b: Word)
    ensures Cut(Or(a, b).rest, OTHERS) == ZipOr(Cut(a.rest, OTHERS), Cut(b.rest, OTHERS))
  {
    CutOr(a.rest, b.rest, OTHERS);
  }

  lemma BitOr(x: bool, y: bool)
    ensures Bit(x || y) == NatOr(Bit(x), Bit(y))
  {
  }

  /** The or of two records is the bitwise or of their numbers. */
  lemma OrIsBitwise(a: Word, b: Word)
    requires Fits(a) && Fits(b)
    ensures Number(Or(a, b)) == NatOr(Number(a), Number(b))
  {
    hide Values;
    ValuesInRange(a);
    ValuesInRange(b);
    CutJoined(Values(a), WIDTHS);
    CutJoined(Values(b), WIDTHS);
    ValuesOr(a, b);
    CutOr(Number(a), Number(b), WIDTHS);
    JoinCut(NatOr(Number(a), Number(b)), WIDTHS);
  }

  lemma {:induction false} PutSum(low: nat, high: nat, b: nat)
    requires low < Pow2(b)
    ensures Put(low, high, b) == low + Pow2(b) * high
  {
    if b > 0 { PutSum(low / 2, high, b - 1); }
  }

  /** The fields from the i-th on. */
  function JoinFrom(values: seq<nat>, widths: seq<nat>, i: nat): (r: nat)
    requires |values| == |widths| + 1 && i <= |widths|
  {
    Join(values[i..], widths[i..])
  }

  lemma JoinStep(values: seq<nat>, widths: seq<nat>, i: nat)
    requires InRange(values, widths) && i < |widths|
    ensures JoinFrom(values, widths, i) == values[i] + Pow2(widths[i]) * JoinFrom(values, widths, i + 1)
  {
    assert values[i..][1..] == values[i + 1..] && widths[i..][1..] == widths[i + 1..];
    PutSum(values[i], Join(values[i + 1..], widths[i + 1..]), widths[i]);
  }

  lemma JoinEnds(values: seq<nat>, widths: seq<nat>)
    requires |values| == |widths| + 1
    ensures JoinFrom(values, widths, |widths|) == values[|widths|] &&
              JoinFrom(values, widths, 0) == Join(values, widths)
  {
    assert values[0..] == values && widths[0..] == widths;
  }

  /** Where the bits of a word are: the kernel's masks 0x1, 0x2, 0x4, 0x80, 0x200, the frame number from bit
      12 and no-execute at bit 63. */
  lemma Masks(w: Word)
    requires Fits(w) && w.rest == 0
    ensures Number(w) == Bit(w.present) * 0x1 + Bit(w.writable) * 0x2 + Bit(w.user) * 0x4 + Bit(w.large) * 0x80
                         + Bit(w.softCow) * 0x200 + w.pfn * PAGE_SIZE + Bit(w.noExecute) * 0x8000_0000_0000_0000
  {
    hide Cut, Join, InRange, Pow2, Fits;
    ValuesInRange(w);
    NothingElse();
    JoinSum(Values(w));
  }

  lemma JoinSum(v: seq<nat>)
    requires |v| == |WIDTHS| + 1 && InRange(v, WIDTHS)
    ensures Join(v, WIDTHS) == v[0] + 2 * (v[1] + 2 * (v[2] + 2 * (v[3] + 16 * (v[4] + 2 * (v[5] + 2 * (v[6]
                               + 2 * (v[7] + 4 * (v[8] + PFN_LIMIT * (v[9] + 2048 * v[10])))))))))
  {
    hide Join, JoinFrom, InRange, Pow2;
    Powers();
    JoinStep(v, WIDTHS, 0);
    JoinStep(v, WIDTHS, 1);
    JoinStep(v, WIDTHS, 2);
    JoinStep(v, WIDTHS, 3);
    JoinStep(v, WIDTHS, 4);
    JoinStep(v, WIDTHS, 5);
    JoinStep(v, WIDTHS, 6);
    JoinStep(v, WIDTHS, 7);
    JoinStep(v, WIDTHS, 8);
    JoinStep(v, WIDTHS, 9);
    JoinEnds(v, WIDTHS);
  }

  lemma NothingElse()
    ensures Cut(0, OTHERS) == [0, 0, 0, 0]
  {
    assert Cut(0, [2]) == [0, 0] && Cut(0, [1, 2]) == [0, 0, 0];
  }

  /** A frame number that may carry into bit 52, as the split loop adds it up. */
  function SumWord(p: nat): (r: Word) {
    ZERO.(pfn := p % PFN_LIMIT, rest := if p < PFN_LIMIT then 0 else BIT_52)
  }

  lemma Bit52Alone()
    ensures Cut(BIT_52, OTHERS) == [0, 0, 0, 1]
  {
    assert Cut(2, [2]) == [2, 0];
    assert Low(128, 4) == 0 && High(128, 4) == 8 && Low(8, 1) == 0 && High(8, 1) == 4 && Low(4, 2) == 0 &&
        High(4, 2) == 1;
    assert Cut(4, [2]) == [0, 1] && Cut(8, [1, 2]) == [0, 0, 1];
  }

  lemma SumFits(p: nat)
    requires p < 2 * PFN_LIMIT
    ensures Fits(SumWord(p))
  {
    assert Pow2(18) > BIT_52;
  }

  lemma SumNumber(p: nat)
    requires p < 2 * PFN_LIMIT
    ensures Number(SumWord(p)) == p * PAGE_SIZE
  {
    hide Cut, Join, InRange, Pow2, Fits;
    SumFits(p);
    ValuesInRange(SumWord(p));
    if p < PFN_LIMIT {
      NothingElse();
    } else {
      Bit52Alone();
    }
    JoinSum(Values(SumWord(p)));
  }

  lemma PresentNumber()
    ensures Fits(PRESENT) && Number(PRESENT) == 1
  {
    Powers();
    Masks(PRESENT);
  }

  lemma SplitIsOr(e: Word, i: nat)
    ensures SplitWord(e, i) == Or(Or(SumWord(e.pfn + i), KeptFlags(e)), PRESENT)
  {
  }

  function KeptFlags(e: Word): (r: Word) { ZERO.(writable := e.writable, user := e.user, noExecute := e.noExecute) }

  lemma OrFits(a: Word, b: Word)
    requires Fits(a) && Fits(b)
    ensures Fits(Or(a, b))
  {
    Powers();
    OrBounds(a.pfn, b.pfn, 40);
    OrBounds(a.rest, b.rest, 18);
  }

  /** A word of a split table is the or of base plus offset, the kept flags and the present bit. */
  lemma SplitNumber(e: Word, i: nat)
    requires Fits(e) && i < 512
    ensures Number(SplitWord(e, i)) == NatOr(NatOr(e.pfn * PAGE_SIZE + i * PAGE_SIZE, Number(KeptFlags(e))), 1)
  {
    hide Number, NatOr, Or, SplitWord, Fits, KeptFlags, SumWord;
    KeptFits(e, i);
    OrPresent(SumWord(e.pfn + i), KeptFlags(e));
    SumNumber(e.pfn + i);
    SplitIsOr(e, i);
  }

  lemma KeptFits(e: Word, i: nat)
    requires Fits(e) && i < 512
    ensures e.pfn + i < 2 * PFN_LIMIT && Fits(SumWord(e.pfn + i)) && Fits(KeptFlags(e))
  {
    Powers();
    SumFits(e.pfn + i);
  }

  lemma OrPresent(a: Word, b: Word)
    requires Fits(a) && Fits(b)
    ensures Fits(Or(Or(a, b), PRESENT))
    ensures Number(Or(Or(a, b), PRESENT)) == NatOr(NatOr(Number(a), Number(b)), 1)
  {
    hide Number, Or, NatOr, Fits;
    PresentNumber();
    OrFits(a, b);
    OrFits(Or(a, b), PRESENT);
    OrIsBitwise(a, b);
    OrIsBitwise(Or(a, b), PRESENT);
  }

  /** The word a map writes is the or of the masked address, the flags and the present bit. */
  lemma MapNumber(pa: nat, flags: Word)
    requires Fits(flags)
    ensures Fits(MapWord(pa, flags))
    ensures Number(MapWord(pa, flags)) == NatOr(NatOr(pa / PAGE_SIZE % PFN_LIMIT * PAGE_SIZE, Number(flags)), 1)
  {
    hide Number, NatOr;
    SumFits(pa / PAGE_SIZE % PFN_LIMIT);
    SumNumber(pa / PAGE_SIZE % PFN_LIMIT);
    OrPresent(AddressWord(pa), flags);
  }

  /** The word a protect writes is the or of the old address, the flags and the present bit. */
  lemma ProtectNumber(e: Word, flags: Word)
    requires Fits(e) && Fits(flags)
    ensures Fits(ProtectWord(e, flags))
    ensures Number(ProtectWord(e, flags)) == NatOr(NatOr(e.pfn * PAGE_SIZE, Number(flags)), 1)
  {
    hide Number, NatOr;
    SumFits(e.pfn);
    SumNumber(e.pfn);
    OrPresent(SumWord(e.pfn), flags);
  }

  /** Or of numbers of k bits has k bits. */
  lemma {:induction false} OrBounds(a: nat, b: nat, k: nat)
    requires a < Pow2(k) && b < Pow2(k)
    ensures NatOr(a, b) < Pow2(k)
  {
    if a != 0 && b != 0 { OrBounds(a / 2, b / 2, k - 1); }
  }
}
